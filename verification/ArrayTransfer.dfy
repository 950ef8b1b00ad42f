/** Array arguments: the shape computed from the evaluated dimensions, and the recursive strided
transfer that sends an array to a stream of bytes or fills it from one. */
module ArrayTransfer {
  import opened Wrappers
  import opened DimExpr

  /** A dimension after evaluation; what the interface leaves out is `None`. */
  datatype Dim = Dim(size: Option<int>, start: Option<int>, end: Option<int>, step: Option<int>)
  {
    function Size(): int { Default(size, 0) }
    function Start(): int { Default(start, 0) }
    function End(): int { Default(end, Size()) }
    function Step(): int { Default(step, 1) }

    /** The ranges the transfer is meant for. */
    predicate Proper() {
      Size() >= 1 && 0 <= Start() <= End() <= Size() && Step() >= 1
    }

    /** The whole dimension. */
    predicate Whole() {
      Size() >= 1 && Start() == 0 && End() == Size() && Step() == 1
    }
  }

  function Default(x: Option<int>, default: int): int {
    match x
    case Some(v) => v
    case None => default
  }

  datatype DimShape = DimShape(bsize: int, start: int, end: int, step: int)

  datatype Shape = Shape(dims: seq<DimShape>, elemSize: int, shrink: bool, totalCount: int)

  // ----- ninf_set_array_shape -----

  /** Bytes spanned by the first `d` dimensions. */
  function Span(dims: seq<Dim>, elemSize: int, d: nat): int
    requires d <= |dims|
  {
    if d == 0 then elemSize else Span(dims, elemSize, d - 1) * dims[d - 1].Size()
  }

  /** The elements a range selects, or nothing for the ranges reported as bad. */
  function RangeCount(dim: Dim): Option<int> {
    if dim.Start() < dim.End() && dim.Step() > 0 then
      Some(CDiv(dim.End() - dim.Start() + dim.Step() - 1, dim.Step()))
    else if dim.Start() > dim.End() && dim.Step() < 0 then
      Some(CDiv(dim.Start() - dim.End() + dim.Step() - 1, dim.Step()))
    else None
  }

  /** What a dimension contributes to the total count: a zero count is left out. */
  function Factor(dim: Dim, shrink: bool): int {
    var count := if !shrink then dim.Size() else Default(RangeCount(dim), 0);
    if count != 0 then count else 1
  }

  function Total(dims: seq<Dim>, shrink: bool, d: nat): int
    requires d <= |dims|
  {
    if d == 0 then 1 else Total(dims, shrink, d - 1) * Factor(dims[d - 1], shrink)
  }

  /** A dimension of size 0 counts as if it were not there. */
  lemma {:induction false} EmptyDimension(dims: seq<Dim>, k: nat, d: nat)
    requires k < |dims| && dims[k].Size() == 0 && d <= |dims|
    ensures Total(dims, false, d) ==
            if d <= k then Total(dims[..k] + dims[k + 1..], false, d) else Total(dims[..k] + dims[k + 1..], false, d - 1)
  {
    if d > 0 {
      EmptyDimension(dims, k, d - 1);
    }
  }

  predicate BadRange(dim: Dim) { RangeCount(dim).None? }

  function ShapeOf(dims: seq<Dim>, elemSize: int, d: nat): DimShape
    requires d < |dims|
  {
    DimShape(Span(dims, elemSize, d + 1), dims[d].Start(), dims[d].End(), dims[d].Step())
  }

  /** The `if (sp->shrink)` of ninf_set_array_shape; `None` is the fatal "bad range value". */
  method CountRange(size: int, start: int, end: int, step: int, shrink: bool) returns (count: Option<int>)
    ensures var dim := Dim(Some(size), Some(start), Some(end), Some(step));
            count == if shrink then RangeCount(dim) else Some(size)
  {
    if shrink {
      if start < end && step > 0 {
        count := Some(CDiv(end - start + step - 1, step));
      } else if start > end && step < 0 {
        count := Some(CDiv(start - end + step - 1, step));
      } else {
        count := None;
      }
    } else {
      count := Some(size);
    }
  }

  method SetArrayShape(dims: seq<Dim>, elemSize: int, shrink: bool) returns (r: Option<Shape>)
    ensures r.None? <==> shrink && exists k | 0 <= k < |dims| :: BadRange(dims[k])
    ensures r.Some? ==>
              && r.value.elemSize == elemSize && r.value.shrink == shrink && |r.value.dims| == |dims|
              && (forall d | 0 <= d < |dims| :: r.value.dims[d] == ShapeOf(dims, elemSize, d))
              && r.value.totalCount == Total(dims, shrink, |dims|)
  {
    var bsize, totalCount := elemSize, 1;
    var shape: seq<DimShape> := [];
    for d := 0 to |dims|
      invariant |shape| == d && bsize == Span(dims, elemSize, d)
      invariant shrink ==> forall k | 0 <= k < d :: !BadRange(dims[k])
      invariant totalCount == Total(dims, shrink, d)
      invariant forall k | 0 <= k < d :: shape[k] == ShapeOf(dims, elemSize, k)
    {
      var size := Default(dims[d].size, 0);
      bsize := bsize * size;
      var start := Default(dims[d].start, 0);
      var end := Default(dims[d].end, size);
      var step := Default(dims[d].step, 1);
      shape := shape + [DimShape(bsize, start, end, step)];
      var count := CountRange(size, start, end, step, shrink);
      if count.None? {
        assert BadRange(dims[d]);
        return None;
      }
      totalCount := totalCount * (if count.value != 0 then count.value else 1);
    }
    r := Some(Shape(shape, elemSize, shrink, totalCount));
  }

  lemma {:induction false} TotalIsSpan(dims: seq<Dim>, elemSize: int, d: nat)
    requires d <= |dims| && elemSize >= 1
    requires forall k | 0 <= k < d :: dims[k].Size() >= 1
    ensures Total(dims, false, d) * elemSize == Span(dims, elemSize, d) >= 1
  {
    if d > 0 {
      TotalIsSpan(dims, elemSize, d - 1);
      Rearrange(Total(dims, false, d - 1), dims[d - 1].Size(), elemSize);
      AtLeastOne(Span(dims, elemSize, d - 1), dims[d - 1].Size());
    }
  }

  lemma Rearrange(a: int, b: int, c: int)
    ensures a * b * c == a * c * b
  {
  }

  lemma AtLeastOne(a: int, b: int)
    requires a >= 1 && b >= 1
    ensures a * b >= a
  {
    var c := b - 1;
    assert a * b == a + a * c;
    assert a * c >= 0;
  }

  /** Each dimension holds as many of the ones below as its range reaches. */
  ghost predicate WellFormed(ap: Shape) {
    && ap.elemSize >= 1 && |ap.dims| >= 1
    && (forall d | 0 <= d < |ap.dims| :: 0 <= ap.dims[d].start <= ap.dims[d].end && ap.dims[d].step >= 1)
    && (forall d | 0 <= d < |ap.dims| :: Holds(ap, d))
  }

  ghost predicate Holds(ap: Shape, d: nat)
    requires d < |ap.dims|
  {
    Unit(ap, d) >= 1 && Unit(ap, d) * ap.dims[d].end <= ap.dims[d].bsize
  }

  ghost predicate Fills(ap: Shape, d: nat)
    requires d < |ap.dims|
  {
    Unit(ap, d) * ap.dims[d].end == ap.dims[d].bsize
  }

  ghost predicate CoversAll(ap: Shape) {
    && WellFormed(ap)
    && (forall d | 0 <= d < |ap.dims| :: ap.dims[d].start == 0 && ap.dims[d].step == 1)
    && (forall d | 0 <= d < |ap.dims| :: Fills(ap, d))
  }

  /** Bytes between neighbours in dimension `d`. */
  function Unit(ap: Shape, d: int): int
    requires 0 <= d < |ap.dims|
  {
    if d == 0 then ap.elemSize else ap.dims[d - 1].bsize
  }

  predicate Describes(ap: Shape, dims: seq<Dim>) {
    && ap.elemSize >= 1 && |ap.dims| == |dims| >= 1
    && forall d | 0 <= d < |dims| :: ap.dims[d] == ShapeOf(dims, ap.elemSize, d)
  }

  lemma ProperDim(dims: seq<Dim>, ap: Shape, d: nat)
    requires Describes(ap, dims) && d < |dims|
    requires forall k | 0 <= k < |dims| :: dims[k].Proper()
    ensures Holds(ap, d)
    ensures dims[d].Whole() ==> Fills(ap, d)
  {
    TotalIsSpan(dims, ap.elemSize, d);
    assert Unit(ap, d) == Span(dims, ap.elemSize, d);
    Monotone(Unit(ap, d), ap.dims[d].end, dims[d].Size());
  }

  /** Proper ranges make a well-formed shape. */
  lemma ProperShape(dims: seq<Dim>, ap: Shape)
    requires Describes(ap, dims)
    requires forall d | 0 <= d < |dims| :: dims[d].Proper()
    ensures WellFormed(ap)
  {
    forall d | 0 <= d < |dims| {
      ProperDim(dims, ap, d);
    }
  }

  /** Whole ranges make a shape that covers everything. */
  lemma WholeShape(dims: seq<Dim>, ap: Shape)
    requires Describes(ap, dims)
    requires forall d | 0 <= d < |dims| :: dims[d].Whole()
    ensures CoversAll(ap)
  {
    forall d | 0 <= d < |dims| {
      ProperDim(dims, ap, d);
    }
  }

  /** The bytes spanned by all dimensions are the total count of a transfer that does not
      shrink. */
  lemma SpanIsTotal(dims: seq<Dim>, ap: Shape)
    requires Describes(ap, dims)
    requires forall d | 0 <= d < |dims| :: dims[d].Proper()
    ensures Total(dims, false, |dims|) * ap.elemSize == ap.dims[|dims| - 1].bsize
  {
    TotalIsSpan(dims, ap.elemSize, |dims|);
  }

  lemma Monotone(a: int, b: int, c: int)
    requires a >= 0 && b <= c
    ensures a * b <= a * c
  {
    assert a * (c - b) >= 0;
  }

  // ----- The bytes a transfer visits -----

  function Row(at: int, count: int, pitch: int): seq<int>
    decreases count
  {
    if count <= 0 then [] else [at] + Row(at + pitch, count - 1, pitch)
  }

  /** The elements of dimension 0 that ninf_trans_array_rec counts. */
  function RowCount(r: DimShape): int
    requires r.step >= 1
  {
    CDiv(r.end - r.start + r.step - 1, r.step)
  }

  /** The byte offsets of the transferred elements, in the order of ninf_trans_array_rec.  The
      start of dimension 0 is added to a `char *`, that is, in bytes. */
  function Touched(ap: Shape, dim: nat, base: int): seq<int>
    requires WellFormed(ap) && dim < |ap.dims|
    decreases dim, 1, 0
  {
    var r := ap.dims[dim];
    if dim == 0 then Row(base + r.start, RowCount(r), r.step * ap.elemSize)
    else Slices(ap, dim, base, r.start)
  }

  function Slices(ap: Shape, dim: nat, base: int, i: int): seq<int>
    requires WellFormed(ap) && 0 < dim < |ap.dims| && i >= 0
    decreases dim, 0, ap.dims[dim].end - i
  {
    if i >= ap.dims[dim].end then []
    else Touched(ap, dim - 1, base + i * ap.dims[dim - 1].bsize) + Slices(ap, dim, base, i + ap.dims[dim].step)
  }

  // ----- The counts -----

  /** The indices that a range selects. */
  function Selected(start: int, end: int, step: int): seq<int>
    requires step != 0
    decreases if step > 0 then end - start else start - end
  {
    if (step > 0 && start < end) || (step < 0 && start > end) then [start] + Selected(start + step, end, step) else []
  }

  lemma CeilingStep(room: int, step: int)
    requires room > 0 && step > 0
    ensures (room + step - 1) / step == 1 + (room - 1) / step
  {
    assert (room - 1) + step == room + step - 1;
    var q, r := (room - 1) / step, (room - 1) % step;
    assert room - 1 == q * step + r;
    assert room + step - 1 == (q + 1) * step + r;
    QuotientIs(room + step - 1, step, q + 1, r);
  }

  lemma QuotientIs(x: int, d: int, q: int, r: int)
    requires d > 0 && x == q * d + r && 0 <= r < d
    ensures x / d == q
  {
    var e := x / d;
    assert x == e * d + x % d;
    if e < q {
      Monotone(d, e + 1, q);
    } else if e > q {
      Monotone(d, q + 1, e);
    }
  }

  /** The rounded-up quotient counts the selected indices of a rising range. */
  lemma {:induction false} RisingCount(start: int, end: int, step: int)
    requires start < end && step > 0
    ensures CDiv(end - start + step - 1, step) == |Selected(start, end, step)|
    decreases end - start
  {
    CeilingStep(end - start, step);
    if start + step < end {
      RisingCount(start + step, end, step);
    } else {
      QuotientIs(end - start - 1, step, 0, end - start - 1);
    }
  }

  /** What the count of a falling range divides is never larger than one step. */
  lemma FallingQuotient(room: int, step: int)
    requires room > 0 && step < 0
    ensures room == 1 ==> CDiv(room + step - 1, step) == 1
    ensures room > 1 ==> CDiv(room + step - 1, step) <= 0
  {
    var x, d := room + step - 1, -step;
    if room == 1 {
      assert x == step;
      QuotientIs(d, d, 1, 0);
    } else if x < 0 {
      QuotientIs(-x, d, 0, -x);
    } else {
      assert x == (x / d) * d + x % d;
    }
  }

  lemma FallingCount(start: int, end: int, step: int)
    requires start > end && step < 0
    ensures |Selected(start, end, step)| >= 1
    ensures start - end == 1 ==> |Selected(start, end, step)| == 1
  {
  }

  /** A range is reported as bad exactly when it selects nothing.  The count of the others is the
      number of selected indices if they rise; if they fall, only of a range of one index. */
  lemma RangeCountIsExact(dim: Dim)
    requires dim.Step() != 0
    ensures var picked := |Selected(dim.Start(), dim.End(), dim.Step())|;
            && (RangeCount(dim).None? <==> picked == 0)
            && (RangeCount(dim).Some? ==>
                  (RangeCount(dim).value == picked <==> dim.Step() > 0 || dim.Start() - dim.End() == 1))
  {
    var start, end, step := dim.Start(), dim.End(), dim.Step();
    if step > 0 && start < end {
      RisingCount(start, end, step);
    } else if step < 0 && start > end {
      FallingQuotient(start - end, step);
      FallingCount(start, end, step);
    }
  }

  /** Ten elements taken backwards: the program counts minus eight. */
  lemma FallingTen(dim: Dim)
    requires dim == Dim(Some(10), Some(10), Some(0), Some(-1))
    ensures RangeCount(dim) == Some(-8)
  {
  }

  /** The elements that dimensions 0 to `d` select together. */
  function Picked(ap: Shape, d: nat): nat
    requires WellFormed(ap) && d < |ap.dims|
  {
    var r := ap.dims[d];
    |Selected(r.start, r.end, r.step)| * if d == 0 then 1 else Picked(ap, d - 1)
  }

  lemma {:induction false} RowLength(at: int, count: nat, pitch: int)
    ensures |Row(at, count, pitch)| == count
    decreases count
  {
    if count > 0 {
      RowLength(at + pitch, count - 1, pitch);
    }
  }

  /** The transfer visits as many elements as the ranges select. */
  lemma {:induction false} TouchedCount(ap: Shape, dim: nat, base: int)
    requires WellFormed(ap) && dim < |ap.dims|
    ensures |Touched(ap, dim, base)| == Picked(ap, dim)
    decreases dim, 1, 0
  {
    var r := ap.dims[dim];
    if dim == 0 {
      if r.start < r.end {
        RisingCount(r.start, r.end, r.step);
      } else {
        QuotientIs(r.step - 1, r.step, 0, r.step - 1);
      }
      RowLength(base + r.start, RowCount(r), r.step * ap.elemSize);
    } else {
      SlicesCount(ap, dim, base, r.start);
    }
  }

  lemma {:induction false} SlicesCount(ap: Shape, dim: nat, base: int, i: int)
    requires WellFormed(ap) && 0 < dim < |ap.dims| && i >= 0
    ensures |Slices(ap, dim, base, i)| == |Selected(i, ap.dims[dim].end, ap.dims[dim].step)| * Picked(ap, dim - 1)
    decreases dim, 0, ap.dims[dim].end - i
  {
    var r, below := ap.dims[dim], Picked(ap, dim - 1);
    if i < r.end {
      TouchedCount(ap, dim - 1, base + i * ap.dims[dim - 1].bsize);
      SlicesCount(ap, dim, base, i + r.step);
      OneMore(|Selected(i + r.step, r.end, r.step)|, below);
    }
  }

  lemma OneMore(n: nat, m: nat)
    ensures (n + 1) * m == m + n * m
  {
  }

  lemma {:induction false} TotalIsPicked(dims: seq<Dim>, ap: Shape, d: nat)
    requires Describes(ap, dims) && WellFormed(ap) && d < |dims|
    requires forall k | 0 <= k < |dims| :: dims[k].Proper() && !BadRange(dims[k])
    ensures Total(dims, true, d + 1) == Picked(ap, d)
  {
    RangeCountIsExact(dims[d]);
    if d > 0 {
      TotalIsPicked(dims, ap, d - 1);
      Swapped(Picked(ap, d - 1), Factor(dims[d], true));
    }
  }

  lemma Swapped(a: int, b: int)
    ensures a * b == b * a
  {
  }

  /** With `shrink` the total count is the number of elements that the ranges select, which is what
      the transfer without `shrink` visits. */
  lemma ShrunkTotal(dims: seq<Dim>, ap: Shape, base: int)
    requires Describes(ap, dims)
    requires forall k | 0 <= k < |dims| :: dims[k].Proper() && !BadRange(dims[k])
    ensures WellFormed(ap)
    ensures Total(dims, true, |dims|) == |Touched(ap, |dims| - 1, base)|
  {
    ProperShape(dims, ap);
    TotalIsPicked(dims, ap, |dims| - 1);
    TouchedCount(ap, |dims| - 1, base);
  }

  // ----- What the transfer does to a stream and an array -----

  datatype Io = Io(stream: seq<byte>, mem: seq<byte>)

  predicate Inside(offs: seq<int>, elemSize: int, n: nat) {
    forall k | 0 <= k < |offs| :: 0 <= offs[k] && offs[k] + elemSize <= n
  }

  function Volume(offs: seq<int>, elemSize: nat): nat {
    if offs == [] then 0 else elemSize + Volume(offs[1..], elemSize)
  }

  predicate Ready(offs: seq<int>, elemSize: nat, io: Io, recv: bool) {
    Inside(offs, elemSize, |io.mem|) && (recv ==> |io.stream| >= Volume(offs, elemSize))
  }

  /** Moves `n` bytes at offset `at`. */
  function Block(at: int, n: nat, io: Io, recv: bool): Io
    requires 0 <= at && at + n <= |io.mem| && (recv ==> |io.stream| >= n)
  {
    if recv then Io(io.stream[n..], io.mem[..at] + io.stream[..n] + io.mem[at + n..])
    else Io(io.stream + io.mem[at..at + n], io.mem)
  }

  /** Moves one element after the other. */
  function Transfer(offs: seq<int>, elemSize: nat, io: Io, recv: bool): (r: Io)
    requires Ready(offs, elemSize, io, recv)
    ensures |r.mem| == |io.mem|
    ensures recv ==> |r.stream| == |io.stream| - Volume(offs, elemSize)
    decreases |offs|
  {
    if offs == [] then io
    else Transfer(offs[1..], elemSize, Block(offs[0], elemSize, io, recv), recv)
  }

  lemma BlockSplit(at: int, m: nat, n: nat, total: nat, io: Io, recv: bool, mid: Io)
    requires total == m + n && 0 <= at && at + total <= |io.mem| && (recv ==> |io.stream| >= total)
    requires mid == Block(at, m, io, recv)
    ensures Block(at, total, io, recv) == Block(at + m, n, mid, recv)
  {
    if recv {
      WriteSplit(io.mem, at, io.stream, m, n, total);
    } else {
      ReadSplit(io.mem, at, m, n, total);
      Associate(io.stream, io.mem[at..at + m], io.mem[at + m..at + total]);
    }
  }

  lemma ReadSplit(mem: seq<byte>, at: nat, m: nat, n: nat, total: nat)
    requires total == m + n && at + total <= |mem|
    ensures mem[at..at + total] == mem[at..at + m] + mem[at + m..at + m + n]
  {
  }

  lemma WriteSplit(mem: seq<byte>, at: nat, data: seq<byte>, m: nat, n: nat, total: nat)
    requires total == m + n && at + total <= |mem| && total <= |data|
    ensures data[m..][n..] == data[total..]
    ensures var mid := mem[..at] + data[..m] + mem[at + m..];
            mem[..at] + data[..total] + mem[at + total..] == mid[..at + m] + data[m..][..n] + mid[at + m + n..]
  {
    var mid := mem[..at] + data[..m] + mem[at + m..];
    assert mid[..at + m] == mem[..at] + data[..m];
    assert mid[at + m + n..] == mem[at + total..];
    assert data[..total] == data[..m] + data[m..][..n];
  }

  lemma EmptyBlock(at: int, n: nat, io: Io, recv: bool)
    requires 0 <= at <= |io.mem| && n == 0
    ensures Block(at, n, io, recv) == io
  {
    assert io.mem[..at] + io.stream[..0] + io.mem[at..] == io.mem;
    assert io.stream[0..] == io.stream && io.stream + io.mem[at..at] == io.stream;
  }

  lemma {:induction false} VolumeOfRow(at: int, count: nat, pitch: int, elemSize: nat)
    ensures Volume(Row(at, count, pitch), elemSize) == count * elemSize
    decreases count
  {
    if count > 0 {
      assert Row(at, count, pitch)[1..] == Row(at + pitch, count - 1, pitch);
      VolumeOfRow(at + pitch, count - 1, pitch, elemSize);
      assert count * elemSize == elemSize + (count - 1) * elemSize;
    }
  }

  /** Moving the elements at `offs` from the state `io` on leads to `goal`. */
  predicate Leads(offs: seq<int>, elemSize: nat, io: Io, recv: bool, goal: Io)
    decreases |offs|
  {
    if offs == [] then io == goal
    else
      && 0 <= offs[0] && offs[0] + elemSize <= |io.mem| && (recv ==> |io.stream| >= elemSize)
      && Leads(offs[1..], elemSize, Block(offs[0], elemSize, io, recv), recv, goal)
  }

  lemma {:induction false} LeadsIsTransfer(offs: seq<int>, elemSize: nat, io: Io, recv: bool)
    requires Ready(offs, elemSize, io, recv)
    ensures Leads(offs, elemSize, io, recv, Transfer(offs, elemSize, io, recv))
    decreases |offs|
  {
    if offs != [] {
      LeadsIsTransfer(offs[1..], elemSize, Block(offs[0], elemSize, io, recv), recv);
    }
  }

  lemma {:induction false} LeadsAppend(a: seq<int>, b: seq<int>, elemSize: nat, io: Io, recv: bool, goal: Io)
    returns (next: Io)
    requires Leads(a + b, elemSize, io, recv, goal)
    ensures Leads(a, elemSize, io, recv, next) && Leads(b, elemSize, next, recv, goal)
    decreases |a|
  {
    if a == [] {
      assert a + b == b;
      next := io;
    } else {
      assert (a + b)[0] == a[0] && (a + b)[1..] == a[1..] + b;
      next := LeadsAppend(a[1..], b, elemSize, Block(a[0], elemSize, io, recv), recv, goal);
    }
  }

  lemma RowStep(at: int, count: int, pitch: int, elemSize: nat, io: Io, recv: bool, goal: Io)
    requires count > 0 && Leads(Row(at, count, pitch), elemSize, io, recv, goal)
    ensures 0 <= at && at + elemSize <= |io.mem| && (recv ==> |io.stream| >= elemSize)
    ensures Leads(Row(at + pitch, count - 1, pitch), elemSize, Block(at, elemSize, io, recv), recv, goal)
  {
    var row := Row(at, count, pitch);
    assert row[0] == at && row[1..] == Row(at + pitch, count - 1, pitch);
  }

  /** Neighbouring elements make one block. */
  lemma {:induction false} RowIsBlock(at: int, count: nat, elemSize: nat, n: nat, io: Io, recv: bool, goal: Io)
    requires Leads(Row(at, count, elemSize), elemSize, io, recv, goal) && (count == 0 ==> 0 <= at <= |io.mem|)
    requires n == Volume(Row(at, count, elemSize), elemSize)
    ensures 0 <= at && at + n <= |io.mem| && (recv ==> |io.stream| >= n)
    ensures goal == Block(at, n, io, recv)
    decreases count
  {
    if count == 0 {
      EmptyBlock(at, n, io, recv);
    } else {
      var mid := FirstOfRow(at, count, elemSize, io, recv, goal);
      var left := n - elemSize;
      RowIsBlock(at + elemSize, count - 1, elemSize, left, mid, recv, goal);
      BlockSplit(at, elemSize, left, n, io, recv, mid);
    }
  }

  /** The first element of a row of neighbours, moved. */
  lemma FirstOfRow(at: int, count: int, elemSize: nat, io: Io, recv: bool, goal: Io) returns (mid: Io)
    requires count > 0 && Leads(Row(at, count, elemSize), elemSize, io, recv, goal)
    ensures 0 <= at && at + elemSize <= |io.mem| && (recv ==> |io.stream| >= elemSize)
    ensures mid == Block(at, elemSize, io, recv)
    ensures |mid.mem| == |io.mem| && (recv ==> |mid.stream| == |io.stream| - elemSize)
    ensures Leads(Row(at + elemSize, count - 1, elemSize), elemSize, mid, recv, goal)
    ensures Volume(Row(at, count, elemSize), elemSize) == elemSize + Volume(Row(at + elemSize, count - 1, elemSize), elemSize)
  {
    RowStep(at, count, elemSize, elemSize, io, recv, goal);
    mid := Block(at, elemSize, io, recv);
    assert Row(at, count, elemSize)[1..] == Row(at + elemSize, count - 1, elemSize);
  }

  // ----- The transfer loops -----

  /** A stream of bytes, first in first out: the buffered handle without its buffers. */
  class Channel {
    var bytes: seq<byte>

    constructor ()
      ensures bytes == []
    {
      bytes := [];
    }

    /** omrpc_io_send, or omrpc_io_recv once the bytes are there. */
    method Move(mem: array<byte>, at: nat, n: nat, recv: bool)
      requires at + n <= mem.Length && (recv ==> |bytes| >= n)
      modifies this, mem
      ensures Io(bytes, mem[..]) == Block(at, n, old(Io(bytes, mem[..])), recv)
    {
      if recv {
        var data := bytes[..n];
        forall k | 0 <= k < n {
          mem[at + k] := data[k];
        }
        bytes := bytes[n..];
        assert mem[..] == old(mem[..])[..at] + data + old(mem[..])[at + n..];
      } else {
        bytes := bytes + mem[at..at + n];
        assert mem[..][at..at + n] == mem[at..at + n];
      }
    }
  }

  lemma SliceStep(ap: Shape, dim: nat, base: int, i: int, at: int, io: Io, recv: bool, goal: Io) returns (next: Io)
    requires WellFormed(ap) && 0 < dim < |ap.dims| && 0 <= i < ap.dims[dim].end
    requires at == base + i * ap.dims[dim - 1].bsize
    requires Leads(Slices(ap, dim, base, i), ap.elemSize, io, recv, goal)
    ensures Leads(Touched(ap, dim - 1, at), ap.elemSize, io, recv, next)
    ensures Leads(Slices(ap, dim, base, i + ap.dims[dim].step), ap.elemSize, next, recv, goal)
  {
    var first := Touched(ap, dim - 1, at);
    next := LeadsAppend(first, Slices(ap, dim, base, i + ap.dims[dim].step), ap.elemSize, io, recv, goal);
  }

  /** The loop of omrpc_send_recv_int and its like: one element at a time, `pitch` bytes apart. */
  method MoveSpaced(ch: Channel, mem: array<byte>, at: int, count: int, pitch: int, elemSize: nat, recv: bool,
                    ghost start: Io, ghost goal: Io)
    requires start == Io(ch.bytes, mem[..]) && Leads(Row(at, count, pitch), elemSize, start, recv, goal)
    modifies ch, mem
    ensures Io(ch.bytes, mem[..]) == goal
  {
    ghost var io := start;
    var dp, left := at, count;
    while left > 0
      invariant io == Io(ch.bytes, mem[..]) && Leads(Row(dp, left, pitch), elemSize, io, recv, goal)
    {
      RowStep(dp, left, pitch, elemSize, io, recv, goal);
      ch.Move(mem, dp, elemSize, recv);
      io := Block(dp, elemSize, io, recv);
      dp := dp + pitch;
      left := left - 1;
    }
  }

  /** The block of neighbouring elements. */
  method MoveBlock(ch: Channel, mem: array<byte>, at: int, count: int, elemSize: nat, recv: bool,
                   ghost start: Io, ghost goal: Io)
    requires start == Io(ch.bytes, mem[..]) && Leads(Row(at, count, elemSize), elemSize, start, recv, goal)
    modifies ch, mem
    ensures Io(ch.bytes, mem[..]) == goal
  {
    if count > 0 {
      VolumeOfRow(at, count, elemSize, elemSize);
      RowIsBlock(at, count, elemSize, elemSize * count, start, recv, goal);
      ch.Move(mem, at, elemSize * count, recv);
    }
  }

  /** omrpc_send_recv_int and its like: one block for neighbours, one element at a time
      otherwise. */
  method SendRecvAny(ch: Channel, mem: array<byte>, at: int, count: int, stride: nat, elemSize: nat, recv: bool,
                     ghost start: Io, ghost goal: Io)
    requires stride >= 1 && start == Io(ch.bytes, mem[..])
    requires Leads(Row(at, count, stride * elemSize), elemSize, start, recv, goal)
    modifies ch, mem
    ensures Io(ch.bytes, mem[..]) == goal
  {
    if stride == 1 {
      assert stride * elemSize == elemSize;
      MoveBlock(ch, mem, at, count, elemSize, recv, start, goal);
    } else {
      MoveSpaced(ch, mem, at, count, stride * elemSize, elemSize, recv, start, goal);
    }
  }

  /** ninf_trans_array_rec. */
  method TransArrayRec(dim: nat, ch: Channel, mem: array<byte>, base: int, ap: Shape, recv: bool,
                       ghost first: Io, ghost goal: Io)
    requires WellFormed(ap) && dim < |ap.dims| && first == Io(ch.bytes, mem[..])
    requires Leads(Touched(ap, dim, base), ap.elemSize, first, recv, goal)
    modifies ch, mem
    ensures Io(ch.bytes, mem[..]) == goal
    decreases dim, 1
  {
    var start, end, step := ap.dims[dim].start, ap.dims[dim].end, ap.dims[dim].step;
    if dim == 0 {
      var count := CDiv(end - start + step - 1, step);
      SendRecvAny(ch, mem, base + start, count, step, ap.elemSize, recv, first, goal);
    } else {
      ghost var io := first;
      var i := start;
      while i < end
        invariant i >= 0 && io == Io(ch.bytes, mem[..])
        invariant Leads(Slices(ap, dim, base, i), ap.elemSize, io, recv, goal)
      {
        io := TransSlice(dim, ch, mem, base, i, ap, recv, io, goal);
        i := i + step;
      }
    }
  }

  /** One turn of its loop. */
  method TransSlice(dim: nat, ch: Channel, mem: array<byte>, base: int, i: int, ap: Shape, recv: bool,
                    ghost io: Io, ghost goal: Io) returns (ghost next: Io)
    requires WellFormed(ap) && 0 < dim < |ap.dims| && 0 <= i < ap.dims[dim].end && io == Io(ch.bytes, mem[..])
    requires Leads(Slices(ap, dim, base, i), ap.elemSize, io, recv, goal)
    modifies ch, mem
    ensures Io(ch.bytes, mem[..]) == next
    ensures Leads(Slices(ap, dim, base, i + ap.dims[dim].step), ap.elemSize, next, recv, goal)
    decreases dim, 0
  {
    var at := base + i * ap.dims[dim - 1].bsize;
    next := SliceStep(ap, dim, base, i, at, io, recv, goal);
    TransArrayRec(dim - 1, ch, mem, at, ap, recv, io, next);
  }

  /** The elements ninf_send_array and ninf_recv_array move: with `shrink`, the selected number
      of elements, packed. */
  function Moved(ap: Shape, base: int): seq<int>
    requires ap.shrink || WellFormed(ap)
  {
    if ap.shrink then Row(base, ap.totalCount, ap.elemSize) else Touched(ap, |ap.dims| - 1, base)
  }

  /** ninf_send_array (`recv` false) and ninf_recv_array (`recv` true). */
  method TransArray(ch: Channel, mem: array<byte>, base: int, ap: Shape, recv: bool)
    requires ap.elemSize >= 1 && (ap.shrink || WellFormed(ap))
    requires Ready(Moved(ap, base), ap.elemSize, Io(ch.bytes, mem[..]), recv)
    modifies ch, mem
    ensures Io(ch.bytes, mem[..]) == Transfer(Moved(ap, base), ap.elemSize, old(Io(ch.bytes, mem[..])), recv)
  {
    ghost var first := Io(ch.bytes, mem[..]);
    ghost var goal := Transfer(Moved(ap, base), ap.elemSize, first, recv);
    LeadsIsTransfer(Moved(ap, base), ap.elemSize, first, recv);
    if ap.shrink {
      SendRecvAny(ch, mem, base, ap.totalCount, 1, ap.elemSize, recv, first, goal);
    } else {
      TransArrayRec(|ap.dims| - 1, ch, mem, base, ap, recv, first, goal);
    }
  }

  // ----- Inside the array and never overlapping -----

  /** The elements at `offs` lie in [lo, hi), in increasing order and without overlap. */
  predicate Spaced(offs: seq<int>, elemSize: int, lo: int, hi: int) {
    && (forall k | 0 <= k < |offs| :: lo <= offs[k] && offs[k] + elemSize <= hi)
    && (forall j, k | 0 <= j < k < |offs| :: offs[j] + elemSize <= offs[k])
  }

  lemma SpacedAppend(a: seq<int>, b: seq<int>, elemSize: int, lo: int, mid: int, hi: int)
    requires Spaced(a, elemSize, lo, mid) && Spaced(b, elemSize, mid, hi) && lo <= mid <= hi
    ensures Spaced(a + b, elemSize, lo, hi)
  {
  }

  lemma {:induction false} RowIsSpaced(at: int, count: int, pitch: int, elemSize: int, hi: int)
    requires pitch >= elemSize >= 0 && (count > 0 ==> at + (count - 1) * pitch + elemSize <= hi)
    ensures Spaced(Row(at, count, pitch), elemSize, at, hi)
    decreases count
  {
    if count > 1 {
      assert (count - 1) * pitch == pitch + (count - 2) * pitch;
      RowIsSpaced(at + pitch, count - 1, pitch, elemSize, hi);
    }
    if count == 1 {
      assert (count - 1) * pitch == 0;
    }
  }

  /** The rounded-up quotient reaches the last index below `end` and no further. */
  lemma LastOfRow(r: DimShape)
    requires 0 <= r.start <= r.end && r.step >= 1
    ensures RowCount(r) >= 0 && (RowCount(r) > 0 <==> r.start < r.end)
    ensures r.start < r.end ==> r.start + (RowCount(r) - 1) * r.step < r.end <= r.start + RowCount(r) * r.step
  {
    var n := r.end - r.start + r.step - 1;
    var q := n / r.step;
    assert n == q * r.step + n % r.step;
    if r.start == r.end {
      assert q == 0;
    } else {
      assert (q - 1) * r.step == q * r.step - r.step;
      AtLeastQuotient(n, r.step);
    }
  }

  lemma AtLeastQuotient(n: int, d: int)
    requires n >= d >= 1
    ensures n / d >= 1
  {
    assert n == (n / d) * d + n % d;
  }

  /** The bytes of the transferred elements never overlap and stay inside the array, whatever
      the start of dimension 0. */
  lemma {:induction false} TouchedIsSpaced(ap: Shape, dim: nat, base: int)
    requires WellFormed(ap) && dim < |ap.dims|
    ensures ap.dims[dim].bsize >= 0
    ensures Spaced(Touched(ap, dim, base), ap.elemSize, base, base + ap.dims[dim].bsize)
    decreases dim, 1, 0
  {
    var r, unit := ap.dims[dim], Unit(ap, dim);
    assert Holds(ap, dim);
    Monotone(unit, 0, r.end);
    if dim == 0 {
      RowOfShape(r, ap.elemSize, base);
    } else {
      Monotone(unit, 0, r.start);
      SlicesAreSpaced(ap, dim, base, r.start, base + r.start * unit);
      Widen(Slices(ap, dim, base, r.start), ap.elemSize, base + r.start * unit, base, base + r.bsize);
    }
  }

  lemma RowOfShape(r: DimShape, elemSize: int, base: int)
    requires 0 <= r.start <= r.end && r.step >= 1 && elemSize >= 1 && elemSize * r.end <= r.bsize
    ensures Spaced(Row(base + r.start, RowCount(r), r.step * elemSize), elemSize, base, base + r.bsize)
  {
    LastOfRow(r);
    if r.start < r.end {
      RowFits(r, elemSize);
      Monotone(elemSize, 1, r.step);
      RowIsSpaced(base + r.start, RowCount(r), r.step * elemSize, elemSize, base + r.bsize);
      Widen(Row(base + r.start, RowCount(r), r.step * elemSize), elemSize, base + r.start, base, base + r.bsize);
    }
  }

  lemma RowFits(r: DimShape, elemSize: int)
    requires 0 <= r.start < r.end && r.step >= 1 && elemSize >= 1 && elemSize * r.end <= r.bsize
    requires r.start + (RowCount(r) - 1) * r.step < r.end
    ensures r.start + (RowCount(r) - 1) * (r.step * elemSize) + elemSize <= r.bsize
  {
    var last := (RowCount(r) - 1) * r.step;
    assert (RowCount(r) - 1) * (r.step * elemSize) == last * elemSize;
    assert (last + 1) * elemSize == last * elemSize + elemSize;
    Monotone(elemSize, last + 1, r.end - r.start);
    Monotone(r.start, 1, elemSize);
    assert elemSize * (r.end - r.start) == elemSize * r.end - elemSize * r.start;
  }

  lemma {:induction false} SlicesAreSpaced(ap: Shape, dim: nat, base: int, i: int, at: int)
    requires WellFormed(ap) && 0 < dim < |ap.dims| && i >= 0 && at == base + i * Unit(ap, dim)
    ensures Spaced(Slices(ap, dim, base, i), ap.elemSize, at, base + ap.dims[dim].bsize)
    decreases dim, 0, ap.dims[dim].end - i
  {
    var r, unit := ap.dims[dim], Unit(ap, dim);
    assert Holds(ap, dim);
    if i < r.end {
      var next := base + (i + r.step) * unit;
      var first, rest := Touched(ap, dim - 1, at), Slices(ap, dim, base, i + r.step);
      SliceBounds(base, unit, i, r.step, r.end, at, next);
      TouchedIsSpaced(ap, dim - 1, at);
      SlicesAreSpaced(ap, dim, base, i + r.step, next);
      Widen(rest, ap.elemSize, next, at + unit, base + r.bsize);
      SpacedAppend(first, rest, ap.elemSize, at, at + unit, base + r.bsize);
    }
  }

  lemma SliceBounds(base: int, unit: int, i: int, step: int, end: int, at: int, next: int)
    requires unit >= 0 && i < end && step >= 1
    requires at == base + i * unit && next == base + (i + step) * unit
    ensures at + unit <= base + unit * end && at + unit <= next
  {
    assert unit * (i + 1) == i * unit + unit;
    Monotone(unit, i + 1, end);
    Monotone(unit, i + 1, i + step);
  }

  lemma Widen(offs: seq<int>, elemSize: int, lo: int, lower: int, hi: int)
    requires Spaced(offs, elemSize, lo, hi) && lower <= lo
    ensures Spaced(offs, elemSize, lower, hi)
  {
  }

  // ----- Sender and receiver agree -----

  function Gather(mem: seq<byte>, offs: seq<int>, elemSize: nat): seq<byte>
    requires Inside(offs, elemSize, |mem|)
  {
    if offs == [] then [] else mem[offs[0]..offs[0] + elemSize] + Gather(mem, offs[1..], elemSize)
  }

  predicate Covered(offs: seq<int>, elemSize: nat, j: int) {
    exists k | 0 <= k < |offs| :: offs[k] <= j < offs[k] + elemSize
  }

  lemma {:induction false} SendGathers(offs: seq<int>, elemSize: nat, io: Io)
    requires Inside(offs, elemSize, |io.mem|)
    ensures Transfer(offs, elemSize, io, false) == Io(io.stream + Gather(io.mem, offs, elemSize), io.mem)
    decreases |offs|
  {
    if offs != [] {
      SendGathers(offs[1..], elemSize, Block(offs[0], elemSize, io, false));
    }
  }

  lemma {:induction false} GatherVolume(mem: seq<byte>, offs: seq<int>, elemSize: nat)
    requires Inside(offs, elemSize, |mem|)
    ensures |Gather(mem, offs, elemSize)| == Volume(offs, elemSize)
    decreases |offs|
  {
    if offs != [] {
      GatherVolume(mem, offs[1..], elemSize);
    }
  }

  lemma CoveredFirst(offs: seq<int>, elemSize: nat, j: int)
    requires offs != []
    ensures Covered(offs, elemSize, j) <==> offs[0] <= j < offs[0] + elemSize || Covered(offs[1..], elemSize, j)
  {
    if Covered(offs, elemSize, j) {
      var k :| 0 <= k < |offs| && offs[k] <= j < offs[k] + elemSize;
      if k > 0 {
        assert offs[1..][k - 1] == offs[k];
      }
    }
    if Covered(offs[1..], elemSize, j) {
      var k :| 0 <= k < |offs[1..]| && offs[1..][k] <= j < offs[1..][k] + elemSize;
      assert offs[k + 1] == offs[1..][k];
    }
  }

  /** `got` is `dst` with the elements at `offs` replaced by those of `src`. */
  predicate Overlay(offs: seq<int>, elemSize: nat, src: seq<byte>, dst: seq<byte>, got: seq<byte>) {
    && |got| == |dst|
    && forall j | 0 <= j < |dst| :: got[j] == if j < |src| && Covered(offs, elemSize, j) then src[j] else dst[j]
  }

  lemma OverlayStep(offs: seq<int>, elemSize: nat, src: seq<byte>, dst: seq<byte>, mid: seq<byte>, got: seq<byte>)
    requires offs != [] && Inside(offs, elemSize, |src|) && Inside(offs, elemSize, |dst|)
    requires mid == dst[..offs[0]] + src[offs[0]..offs[0] + elemSize] + dst[offs[0] + elemSize..]
    requires Overlay(offs[1..], elemSize, src, mid, got)
    ensures Overlay(offs, elemSize, src, dst, got)
  {
    forall j | 0 <= j < |dst| ensures got[j] == if j < |src| && Covered(offs, elemSize, j) then src[j] else dst[j] {
      CoveredFirst(offs, elemSize, j);
    }
  }

  /** What a transfer sends from `src`, the same transfer receives into `dst`: exactly the
      transferred elements become those of `src`, and the stream is left as it was. */
  lemma {:induction false} CopyIsExact(offs: seq<int>, elemSize: nat, src: seq<byte>, rest: seq<byte>,
                                       dst: seq<byte>)
    requires Inside(offs, elemSize, |src|) && Inside(offs, elemSize, |dst|)
    ensures Ready(offs, elemSize, Io(Gather(src, offs, elemSize) + rest, dst), true)
    ensures var done := Transfer(offs, elemSize, Io(Gather(src, offs, elemSize) + rest, dst), true);
            done.stream == rest && Overlay(offs, elemSize, src, dst, done.mem)
    decreases |offs|
  {
    GatherVolume(src, offs, elemSize);
    if offs == [] {
      assert [] + rest == rest;
    } else {
      var o, tail := offs[0], Gather(src, offs[1..], elemSize) + rest;
      var sent := Gather(src, offs, elemSize) + rest;
      assert sent == src[o..o + elemSize] + tail;
      assert sent[..elemSize] == src[o..o + elemSize] && sent[elemSize..] == tail;
      var next := Block(o, elemSize, Io(sent, dst), true);
      CopyIsExact(offs[1..], elemSize, src, rest, next.mem);
      OverlayStep(offs, elemSize, src, dst, next.mem, Transfer(offs[1..], elemSize, next, true).mem);
    }
  }

  // ----- Whole arrays travel as one block -----

  lemma {:induction false} RowAppend(at: int, m: nat, n: nat, pitch: int)
    ensures Row(at, m, pitch) + Row(at + m * pitch, n, pitch) == Row(at, m + n, pitch)
    decreases m
  {
    if m > 0 {
      RowAppend(at + pitch, m - 1, n, pitch);
      assert m * pitch == pitch + (m - 1) * pitch;
    }
  }

  /** Elements held by dimensions 0 to `dim`. */
  function Elements(ap: Shape, dim: nat): int
    requires dim < |ap.dims|
  {
    if dim == 0 then ap.dims[0].end else Elements(ap, dim - 1) * ap.dims[dim].end
  }

  lemma {:induction false} ElementsFill(ap: Shape, dim: nat)
    requires CoversAll(ap) && dim < |ap.dims|
    ensures Elements(ap, dim) >= 0 && Elements(ap, dim) * ap.elemSize == ap.dims[dim].bsize
  {
    var end := ap.dims[dim].end;
    assert Fills(ap, dim);
    if dim > 0 {
      ElementsFill(ap, dim - 1);
      Rearrange(Elements(ap, dim - 1), end, ap.elemSize);
      Monotone(Elements(ap, dim - 1), 0, end);
    }
  }

  lemma {:induction false} WholeIsRow(ap: Shape, dim: nat, base: int)
    requires CoversAll(ap) && dim < |ap.dims|
    ensures Touched(ap, dim, base) == Row(base, Elements(ap, dim), ap.elemSize)
    decreases dim, 1, 0
  {
    if dim > 0 {
      SlicesAreRow(ap, dim, base, 0);
    }
  }

  lemma {:induction false} SlicesAreRow(ap: Shape, dim: nat, base: int, i: nat)
    requires CoversAll(ap) && 0 < dim < |ap.dims| && i <= ap.dims[dim].end
    ensures Slices(ap, dim, base, i) ==
            Row(base + i * Unit(ap, dim), Elements(ap, dim - 1) * (ap.dims[dim].end - i), ap.elemSize)
    decreases dim, 0, ap.dims[dim].end - i
  {
    var n, left, unit := Elements(ap, dim - 1), ap.dims[dim].end - i, Unit(ap, dim);
    if left > 0 {
      var at := base + i * unit;
      WholeIsRow(ap, dim - 1, at);
      SlicesAreRow(ap, dim, base, i + 1);
      ElementsFill(ap, dim - 1);
      JoinRows(base, i, n, left, unit, ap.elemSize);
    }
  }

  lemma JoinRows(base: int, i: int, n: int, left: int, unit: int, elemSize: int)
    requires n >= 0 && left > 0 && unit == n * elemSize
    ensures Row(base + i * unit, n, elemSize) + Row(base + (i + 1) * unit, n * (left - 1), elemSize) ==
            Row(base + i * unit, n * left, elemSize)
  {
    assert (i + 1) * unit == i * unit + unit;
    assert n * left == n + n * (left - 1);
    Monotone(n, 0, left - 1);
    RowAppend(base + i * unit, n, n * (left - 1), elemSize);
  }

  /** With default ranges the bytes sent are the array itself, in order. */
  lemma WholeArrayIsFlat(ap: Shape, base: nat, mem: seq<byte>)
    requires CoversAll(ap)
    requires base + ap.dims[|ap.dims| - 1].bsize <= |mem|
    ensures Inside(Touched(ap, |ap.dims| - 1, base), ap.elemSize, |mem|)
    ensures ap.dims[|ap.dims| - 1].bsize >= 0
    ensures Gather(mem, Touched(ap, |ap.dims| - 1, base), ap.elemSize) ==
            mem[base..base + ap.dims[|ap.dims| - 1].bsize]
  {
    var last := |ap.dims| - 1;
    TouchedIsSpaced(ap, last, base);
    WholeIsRow(ap, last, base);
    ElementsFill(ap, last);
    RowIsFlat(base, Elements(ap, last), ap.elemSize, mem);
  }

  lemma RowIsFlat(base: nat, count: nat, elemSize: nat, mem: seq<byte>)
    requires Inside(Row(base, count, elemSize), elemSize, |mem|) && (count == 0 ==> base <= |mem|)
    ensures 0 <= base <= base + count * elemSize <= |mem|
    ensures Gather(mem, Row(base, count, elemSize), elemSize) == mem[base..base + count * elemSize]
  {
    var row := Row(base, count, elemSize);
    VolumeOfRow(base, count, elemSize, elemSize);
    LeadsIsTransfer(row, elemSize, Io([], mem), false);
    RowIsBlock(base, count, elemSize, Volume(row, elemSize), Io([], mem), false, Transfer(row, elemSize, Io([], mem), false));
    SendGathers(row, elemSize, Io([], mem));
    var sent := Gather(mem, row, elemSize);
    var flat := mem[base..base + Volume(row, elemSize)];
    assert [] + sent == sent && [] + flat == flat;
  }

  // ----- Sections -----

  /** `steps` says how many steps to take from the start of each dimension. */
  ghost predicate Selects(ap: Shape, dim: nat, steps: seq<nat>)
    requires dim < |ap.dims|
  {
    |steps| == dim + 1 && forall d | 0 <= d <= dim :: ap.dims[d].start + steps[d] * ap.dims[d].step < ap.dims[d].end
  }

  /** The byte offset of the element so selected in a row-major array. */
  function OffsetOf(ap: Shape, dim: nat, steps: seq<nat>): int
    requires dim < |ap.dims| && |steps| == dim + 1
  {
    (ap.dims[dim].start + steps[dim] * ap.dims[dim].step) * Unit(ap, dim) +
    if dim == 0 then 0 else OffsetOf(ap, dim - 1, steps[..dim])
  }

  ghost predicate Declared(ap: Shape, dim: nat, base: int, o: int)
    requires dim < |ap.dims|
  {
    exists steps: seq<nat> :: Selects(ap, dim, steps) && o == base + OffsetOf(ap, dim, steps)
  }

  /** What adding the start of dimension 0 in bytes instead of elements loses. */
  function Skew(ap: Shape): int
    requires |ap.dims| >= 1
  {
    ap.dims[0].start * (ap.elemSize - 1)
  }

  lemma {:induction false} RowHas(at: int, count: nat, pitch: int, k: nat)
    requires k < count
    ensures at + k * pitch in Row(at, count, pitch)
    decreases k
  {
    if k > 0 {
      RowHas(at + pitch, count - 1, pitch, k - 1);
      assert k * pitch == pitch + (k - 1) * pitch;
    }
  }

  lemma {:induction false} RowHasOnly(at: int, count: int, pitch: int, o: int) returns (k: nat)
    requires o in Row(at, count, pitch)
    ensures k < count && o == at + k * pitch
    decreases count
  {
    if o == at {
      k := 0;
    } else {
      k := RowHasOnly(at + pitch, count - 1, pitch, o);
      k := k + 1;
      assert k * pitch == pitch + (k - 1) * pitch;
    }
  }

  lemma RowOffset(start: int, k: int, step: int, elemSize: int)
    ensures start + k * (step * elemSize) == (start + k * step) * elemSize - start * (elemSize - 1)
  {
    assert k * (step * elemSize) == (k * step) * elemSize;
  }

  lemma StepsBelow(k: int, n: int, step: int, room: int)
    requires step >= 1 && k * step < room <= n * step
    ensures k < n
  {
    if k >= n {
      Monotone(step, n, k);
    }
  }

  lemma StepsReach(k: int, n: int, step: int, room: int)
    requires step >= 1 && k < n && (n - 1) * step < room
    ensures k * step < room
  {
    Monotone(step, k, n - 1);
  }

  lemma {:induction false} TouchedIsDeclared(ap: Shape, dim: nat, base: int, o: int) returns (steps: seq<nat>)
    requires WellFormed(ap) && dim < |ap.dims| && o in Touched(ap, dim, base)
    ensures Selects(ap, dim, steps) && o == base + OffsetOf(ap, dim, steps) - Skew(ap)
    decreases dim, 1, 0
  {
    var r := ap.dims[dim];
    if dim == 0 {
      var k := RowHasOnly(base + r.start, RowCount(r), r.step * ap.elemSize, o);
      LastOfRow(r);
      StepsReach(k, RowCount(r), r.step, r.end - r.start);
      RowOffset(r.start, k, r.step, ap.elemSize);
      steps := [k];
    } else {
      steps := SliceIsDeclared(ap, dim, base, 0, o);
    }
  }

  lemma {:induction false} SliceIsDeclared(ap: Shape, dim: nat, base: int, k: nat, o: int) returns (steps: seq<nat>)
    requires WellFormed(ap) && 0 < dim < |ap.dims| && ap.dims[dim].start + k * ap.dims[dim].step >= 0
    requires o in Slices(ap, dim, base, ap.dims[dim].start + k * ap.dims[dim].step)
    ensures Selects(ap, dim, steps) && o == base + OffsetOf(ap, dim, steps) - Skew(ap)
    decreases dim, 0, ap.dims[dim].end - (ap.dims[dim].start + k * ap.dims[dim].step)
  {
    var r := ap.dims[dim];
    var i := r.start + k * r.step;
    assert (k + 1) * r.step == k * r.step + r.step;
    var at := base + i * Unit(ap, dim);
    if o in Touched(ap, dim - 1, at) {
      var below := TouchedIsDeclared(ap, dim - 1, at, o);
      steps := below + [k];
      assert steps[..dim] == below;
    } else {
      steps := SliceIsDeclared(ap, dim, base, k + 1, o);
    }
  }

  lemma {:induction false} DeclaredIsTouched(ap: Shape, dim: nat, base: int, steps: seq<nat>)
    requires WellFormed(ap) && dim < |ap.dims| && Selects(ap, dim, steps)
    ensures base + OffsetOf(ap, dim, steps) - Skew(ap) in Touched(ap, dim, base)
    decreases dim, 1, 0
  {
    var r := ap.dims[dim];
    if dim == 0 {
      var k := steps[0];
      Monotone(r.step, 0, k);
      LastOfRow(r);
      StepsBelow(k, RowCount(r), r.step, r.end - r.start);
      RowHas(base + r.start, RowCount(r), r.step * ap.elemSize, k);
      RowOffset(r.start, k, r.step, ap.elemSize);
    } else {
      DeclaredIsInSlices(ap, dim, base, 0, steps);
    }
  }

  lemma {:induction false} DeclaredIsInSlices(ap: Shape, dim: nat, base: int, k: nat, steps: seq<nat>)
    requires WellFormed(ap) && 0 < dim < |ap.dims| && Selects(ap, dim, steps) && k <= steps[dim]
    requires ap.dims[dim].start + k * ap.dims[dim].step >= 0
    ensures base + OffsetOf(ap, dim, steps) - Skew(ap) in
            Slices(ap, dim, base, ap.dims[dim].start + k * ap.dims[dim].step)
    decreases dim, 0, steps[dim] - k
  {
    var r := ap.dims[dim];
    var i := r.start + k * r.step;
    StepsReach(k, steps[dim] + 1, r.step, r.end - r.start);
    if k == steps[dim] {
      DeclaredIsTouched(ap, dim - 1, base + i * Unit(ap, dim), steps[..dim]);
    } else {
      assert (k + 1) * r.step == k * r.step + r.step;
      DeclaredIsInSlices(ap, dim, base, k + 1, steps);
    }
  }

  lemma TouchedIsSkewed(ap: Shape, base: int, skew: int, o: int)
    requires WellFormed(ap) && skew == Skew(ap)
    ensures o in Touched(ap, |ap.dims| - 1, base) <==> Declared(ap, |ap.dims| - 1, base, o + skew)
  {
    var dim := |ap.dims| - 1;
    if o in Touched(ap, dim, base) {
      var steps := TouchedIsDeclared(ap, dim, base, o);
    }
    if Declared(ap, dim, base, o + skew) {
      var steps: seq<nat> :| Selects(ap, dim, steps) && o + skew == base + OffsetOf(ap, dim, steps);
      DeclaredIsTouched(ap, dim, base, steps);
    }
  }

  lemma BelowFirst(offs: seq<int>, elemSize: int, lo: int, hi: int, o: int)
    requires Spaced(offs, elemSize, lo, hi) && elemSize >= 1 && offs != [] && o < offs[0]
    ensures o !in offs
  {
    forall k | 0 <= k < |offs| ensures offs[0] <= offs[k] {}
  }

  /** The transfer moves exactly the declared section if and only if dimension 0 starts at 0,
      the elements are single bytes, or nothing is selected. */
  lemma {:induction false} SectionIsExact(ap: Shape, base: int)
    requires WellFormed(ap)
    ensures var dim := |ap.dims| - 1;
            (forall o :: o in Touched(ap, dim, base) <==> Declared(ap, dim, base, o)) <==>
            ap.dims[0].start == 0 || ap.elemSize == 1 || Touched(ap, dim, base) == []
  {
    var dim, skew := |ap.dims| - 1, Skew(ap);
    var all := Touched(ap, dim, base);
    SkewIsZero(ap.dims[0].start, ap.elemSize);
    if skew == 0 {
      forall o ensures o in all <==> Declared(ap, dim, base, o) {
        TouchedIsSkewed(ap, base, skew, o);
      }
    } else if all == [] {
      forall o ensures !Declared(ap, dim, base, o) {
        TouchedIsSkewed(ap, base, skew, o - skew);
      }
    } else {
      TouchedIsSpaced(ap, dim, base);
      BelowFirst(all, ap.elemSize, base, base + ap.dims[dim].bsize, all[0] - skew);
      TouchedIsSkewed(ap, base, skew, all[0] - skew);
      assert all[0] in all && !Declared(ap, dim, base, all[0]);
    }
  }

  lemma SkewIsZero(start: int, elemSize: int)
    requires start >= 0 && elemSize >= 1
    ensures start * (elemSize - 1) >= 0
    ensures start * (elemSize - 1) == 0 <==> start == 0 || elemSize == 1
  {
    if start >= 1 && elemSize >= 2 {
      AtLeastOne(start, elemSize - 1);
    }
  }

  /** One int taken out of four, from index 1: the transfer moves the bytes at offset 1, not
      those of the element at offset 4. */
  lemma SkewedSection(ap: Shape)
    requires ap == Shape([DimShape(16, 1, 2, 1)], 4, false, 4)
    ensures WellFormed(ap) && Touched(ap, 0, 0) == [1]
    ensures Declared(ap, 0, 0, 4) && !Declared(ap, 0, 0, 1)
  {
    assert Row(1, 1, 4) == [1];
    assert Selects(ap, 0, [0]) && OffsetOf(ap, 0, [0]) == 4;
    forall steps: seq<nat> | Selects(ap, 0, steps) ensures OffsetOf(ap, 0, steps) == 4 {
    }
  }

  // ----- Both ends together -----

  /** Elements that are received from what another list of elements has sent: there are enough bytes,
      and none is left, if and only if the lists are equally long. */
  lemma {:induction false} ReceiveIsExact(sent: seq<int>, awaited: seq<int>, elemSize: nat, src: seq<byte>, dst: seq<byte>)
    requires elemSize >= 1 && Inside(sent, elemSize, |src|) && Inside(awaited, elemSize, |dst|)
    ensures var io := Io(Gather(src, sent, elemSize), dst);
            && (Ready(awaited, elemSize, io, true) <==> |awaited| <= |sent|)
            && (Ready(awaited, elemSize, io, true) ==>
                  (Transfer(awaited, elemSize, io, true).stream == [] <==> |awaited| == |sent|))
  {
    GatherVolume(src, sent, elemSize);
    VolumeIsLength(sent, elemSize);
    VolumeIsLength(awaited, elemSize);
    LongerIsMore(|awaited|, |sent|, elemSize);
  }

  lemma {:induction false} VolumeIsLength(offs: seq<int>, elemSize: nat)
    ensures Volume(offs, elemSize) == |offs| * elemSize
  {
    if offs != [] {
      VolumeIsLength(offs[1..], elemSize);
      OneMore(|offs| - 1, elemSize);
    }
  }

  lemma LongerIsMore(m: nat, n: nat, c: nat)
    requires c >= 1
    ensures m <= n <==> m * c <= n * c
    ensures m == n <==> m * c == n * c
  {
    if m <= n {
      Monotone(c, m, n);
    }
    if n < m {
      Monotone(c, n + 1, m);
      OneMore(n, c);
    }
    if m < n {
      Monotone(c, m + 1, n);
      OneMore(m, c);
    }
  }

  /** What the declared array needs: proper ranges and room for the total count; with `shrink`, good
      ranges and room for the selected number of elements. */
  predicate Sendable(dims: seq<Dim>, elemSize: int, shrink: bool, room: int) {
    && elemSize >= 1 && |dims| >= 1
    && (forall d | 0 <= d < |dims| :: if shrink then !BadRange(dims[d]) else dims[d].Proper())
    && 0 <= Total(dims, shrink, |dims|) * elemSize <= room
  }

  /** The elements to move lie within the total count. */
  lemma {:induction false} MovedInside(dims: seq<Dim>, ap: Shape, room: nat)
    requires ap.elemSize >= 1 && Describes(ap, dims) && ap.totalCount == Total(dims, ap.shrink, |dims|)
    requires Sendable(dims, ap.elemSize, ap.shrink, room)
    ensures ap.shrink || WellFormed(ap)
    ensures var offs, n := Moved(ap, 0), ap.totalCount * ap.elemSize;
            Inside(offs, ap.elemSize, n) && Inside(offs, ap.elemSize, room) && Spaced(offs, ap.elemSize, 0, n)
  {
    if ap.shrink {
      RowIsSpaced(0, ap.totalCount, ap.elemSize, ap.elemSize, ap.totalCount * ap.elemSize);
    } else {
      ProperShape(dims, ap);
      SpanIsTotal(dims, ap);
      TouchedIsSpaced(ap, |dims| - 1, 0);
    }
  }

  /** An array argument of one side arrives in the array of the other, of the same shape: inside the
      bytes of the total count, exactly the moved elements are copied; with whole ranges, all of them. */
  method SendThenReceive(dims: seq<Dim>, elemSize: int, shrink: bool, src: array<byte>, dst: array<byte>)
    returns (ap: Shape, left: seq<byte>)
    requires Sendable(dims, elemSize, shrink, src.Length) && Sendable(dims, elemSize, shrink, dst.Length)
    requires src != dst
    modifies src, dst
    ensures src[..] == old(src[..]) && left == []
    ensures Describes(ap, dims) && ap.elemSize == elemSize && ap.shrink == shrink && (shrink || WellFormed(ap))
    ensures ap.totalCount == Total(dims, shrink, |dims|)
    ensures Spaced(Moved(ap, 0), elemSize, 0, ap.totalCount * elemSize)
    ensures Overlay(Moved(ap, 0), elemSize, src[..], old(dst[..]), dst[..])
  {
    var shape := SetArrayShape(dims, elemSize, shrink);
    ap := shape.value;
    MovedInside(dims, ap, src.Length);
    MovedInside(dims, ap, dst.Length);
    ghost var offs, sent, was := Moved(ap, 0), src[..], dst[..];
    var ch := new Channel();
    SendGathers(offs, elemSize, Io([], sent));
    TransArray(ch, src, 0, ap, false);
    assert ch.bytes == Gather(sent, offs, elemSize) + [];
    CopyIsExact(offs, elemSize, sent, [], was);
    TransArray(ch, dst, 0, ap, true);
    left := ch.bytes;
  }
}
