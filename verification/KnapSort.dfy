/** `sort_PW` of the problem generator: selection sort of two arrays by profit per weight. */
module KnapSort {
  import opened Knapsack

  /** The (profit, weight) pairs in order. */
  ghost function Pairs(P: seq<int>, W: seq<int>): seq<(int, int)>
    requires |P| == |W|
  {
    seq(|P|, k requires 0 <= k < |P| => (P[k], W[k]))
  }

  /** A ratio compared with another by cross multiplication. */
  lemma RatioLess(p: int, w: int, q: int, v: int)
    requires w > 0 && v > 0
    ensures p as real / w as real > q as real / v as real <==> p * v > q * w
  {
    var a, b := p as real / w as real, q as real / v as real;
    assert a * w as real == p as real && b * v as real == q as real;
    var wv := w as real * v as real;
    assert a * wv == p as real * v as real && b * wv == q as real * w as real;
    Scale(a, b, wv);
  }

  lemma Scale(a: real, b: real, c: real)
    requires c > 0.0
    ensures a > b <==> a * c > b * c
  {
    assert (a - b) * c == a * c - b * c;
  }

  // ----- A permutation of the items does not change the optimum -----

  ghost function SwapAt<T>(s: seq<T>, i: nat, j: nat): seq<T>
    requires i < |s| && j < |s|
  {
    s[i := s[j]][j := s[i]]
  }

  lemma {:induction false} TotalUpdate(v: seq<int>, c: seq<bool>, i: nat, x: int, b: bool)
    requires |v| == |c| && i < |v|
    ensures Total(v[i := x], c[i := b]) == Total(v, c) - (if c[i] then v[i] else 0) + (if b then x else 0)
  {
    if i == 0 {
      assert v[0 := x][1..] == v[1..] && c[0 := b][1..] == c[1..];
    } else {
      assert v[i := x][1..] == v[1..][i - 1 := x] && c[i := b][1..] == c[1..][i - 1 := b];
      TotalUpdate(v[1..], c[1..], i - 1, x, b);
    }
  }

  /** The selection moves with the items. */
  lemma TotalSwap(v: seq<int>, c: seq<bool>, i: nat, j: nat)
    requires |v| == |c| && i < |v| && j < |v|
    ensures Total(SwapAt(v, i, j), SwapAt(c, i, j)) == Total(v, c)
  {
    TotalUpdate(v, c, i, v[j], c[j]);
    TotalUpdate(v[i := v[j]], c[i := c[j]], j, v[i], c[i]);
  }

  /** Items of positive weight; a profit may be anything. */
  predicate Weighed(P: seq<int>, W: seq<int>) {
    |P| == |W| && forall k | 0 <= k < |W| :: W[k] > 0
  }

  lemma SwapWeighed(P: seq<int>, W: seq<int>, i: nat, j: nat)
    requires Weighed(P, W) && i < |W| && j < |W|
    ensures Weighed(SwapAt(P, i, j), SwapAt(W, i, j))
    ensures multiset(Pairs(SwapAt(P, i, j), SwapAt(W, i, j))) == multiset(Pairs(P, W))
  {
    assert Pairs(SwapAt(P, i, j), SwapAt(W, i, j)) == SwapAt(Pairs(P, W), i, j);
  }

  lemma SwapItems(W: seq<int>, P: seq<int>, i: nat, j: nat)
    requires Items(W, P) && i < |W| && j < |W|
    ensures Items(SwapAt(W, i, j), SwapAt(P, i, j))
  {
  }

  lemma SwapBestAtLeast(W: seq<int>, P: seq<int>, i: nat, j: nat, M: int)
    requires Items(W, P) && i < |W| && j < |W| && M >= 0
    ensures Items(SwapAt(W, i, j), SwapAt(P, i, j))
    ensures Best(SwapAt(W, i, j), SwapAt(P, i, j), 0, M) >= Best(W, P, 0, M)
  {
    SwapItems(W, P, i, j);
    var chosen := BestIsAchieved(W, P, 0, M);
    assert W[0..] == W && P[0..] == P;
    var W', P' := SwapAt(W, i, j), SwapAt(P, i, j);
    assert W'[0..] == W' && P'[0..] == P';
    TotalSwap(W, chosen, i, j);
    TotalSwap(P, chosen, i, j);
    BestIsUpperBound(W', P', 0, M, SwapAt(chosen, i, j));
  }

  lemma SwapKeepsBest(W: seq<int>, P: seq<int>, i: nat, j: nat, M: int)
    requires Items(W, P) && i < |W| && j < |W| && M >= 0
    ensures Items(SwapAt(W, i, j), SwapAt(P, i, j))
    ensures Best(SwapAt(W, i, j), SwapAt(P, i, j), 0, M) == Best(W, P, 0, M)
  {
    SwapBestAtLeast(W, P, i, j, M);
    var W', P' := SwapAt(W, i, j), SwapAt(P, i, j);
    SwapBestAtLeast(W', P', i, j, M);
    assert SwapAt(W', i, j) == W && SwapAt(P', i, j) == P;
  }

  // ----- The sort -----

  method SwapPW(P: array<int>, W: array<int>, i: nat, j: nat)
    requires P != W && P.Length == W.Length && i < P.Length && j < P.Length
    modifies P, W
    ensures P[..] == SwapAt(old(P[..]), i, j) && W[..] == SwapAt(old(W[..]), i, j)
  {
    var temp := P[i];
    P[i] := P[j];
    P[j] := temp;
    temp := W[i];
    W[i] := W[j];
    W[j] := temp;
  }

  /** The items before `j` are in order, and none after them is denser. */
  ghost predicate SortedUpTo(P: seq<int>, W: seq<int>, j: nat)
    requires |P| == |W| && j <= |P|
  {
    forall a, b | 0 <= a < j && a < b < |P| :: P[a] * W[b] >= P[b] * W[a]
  }

  lemma DensityTransitive(p: int, w: int, q: int, v: int, r: int, u: int)
    requires w > 0 && v > 0 && u > 0 && p * v >= q * w && q * u >= r * v
    ensures p * u >= r * w
  {
    assert (p * v) * u >= (q * w) * u by { MulKeeps(p * v, q * w, u); }
    assert (q * u) * w >= (r * v) * w by { MulKeeps(q * u, r * v, w); }
    assert (p * u - r * w) * v == (p * v) * u - (r * v) * w;
    assert (q * w) * u == (q * u) * w;
    NonNegative(p * u - r * w, v);
  }

  lemma DenserTransitive(p: int, w: int, q: int, v: int, r: int, u: int)
    requires w > 0 && v > 0 && u > 0 && p * v > q * w && q * u >= r * v
    ensures p * u > r * w
  {
    assert (p * v) * u >= (q * w + 1) * u by { MulKeeps(p * v, q * w + 1, u); }
    assert (q * w + 1) * u == (q * w) * u + u;
    assert (q * u) * w >= (r * v) * w by { MulKeeps(q * u, r * v, w); }
    assert (p * u - r * w) * v == (p * v) * u - (r * v) * w;
    assert (q * w) * u == (q * u) * w;
    assert (p * u - r * w) * v > 0;
    Positive(p * u - r * w, v);
  }

  lemma Positive(y: int, v: int)
    requires v > 0 && y * v > 0
    ensures y > 0
  {}

  lemma MulKeeps(a: int, b: int, c: int)
    requires a >= b && c >= 0
    ensures a * c >= b * c
  {}

  lemma NonNegative(y: int, v: int)
    requires v > 0 && y * v >= 0
    ensures y >= 0
  {}

  /** The densest item from `j` on, moved to `j`, keeps the order. */
  lemma SelectKeeps(P: seq<int>, W: seq<int>, j: nat, m: nat)
    requires Items(W, P) && j <= m < |P| && SortedUpTo(P, W, j)
    requires forall k | j <= k < |P| :: P[m] * W[k] >= P[k] * W[m]
    ensures SortedUpTo(SwapAt(P, m, j), SwapAt(W, m, j), j + 1)
  {}

  // ----- What the sort computes -----

  /** No profit is left from `j` on. */
  predicate Spent(P: seq<int>, j: nat) {
    forall k | j <= k < |P| :: P[k] <= 0
  }

  /** The first of the densest items with a profit, among `best` and those from `i` on; -1 for none. */
  function PickFrom(P: seq<int>, W: seq<int>, i: nat, best: int): (v: int)
    requires |P| == |W| && i <= |P| && -1 <= best < |P|
    ensures (v == best || i <= v < |P|) && (v < 0 <==> best < 0 && Spent(P, i))
    decreases |P| - i
  {
    if i == |P| then best
    else PickFrom(P, W, i + 1, if P[i] > 0 && (best < 0 || P[i] * W[best] > P[best] * W[i]) then i else best)
  }

  /** The index the inner loop leaves: with no profit left it is not assigned. */
  function Chosen(P: seq<int>, W: seq<int>, j: nat, stale: int): int
    requires |P| == |W| && j < |P|
  {
    if Spent(P, j) then stale else PickFrom(P, W, j, -1)
  }

  datatype Sorted = Undefined | Sorted(P: seq<int>, W: seq<int>)

  /** The outer loop from `j` on; `stale` is what `maxPWindex` holds.  An exchange outside the
      arrays is undefined. */
  function SortFrom(P: seq<int>, W: seq<int>, j: nat, stale: int): (r: Sorted)
    requires |P| == |W| && j <= |P|
    ensures r.Sorted? ==> |r.P| == |r.W| == |P|
    decreases |P| - j
  {
    if j == |P| then Sorted.Sorted(P, W)
    else
      var v := Chosen(P, W, j, stale);
      if 0 <= v < |P| then SortFrom(Exchanged(P, v, j), Exchanged(W, v, j), j + 1, v) else Undefined
  }

  function Exchanged(s: seq<int>, i: nat, j: nat): (r: seq<int>)
    requires i < |s| && j < |s|
    ensures r == SwapAt(s, i, j)
  {
    s[i := s[j]][j := s[i]]
  }

  /** The index that was selected last, when the profits ran out. */
  function LastPick(P: seq<int>, W: seq<int>, j: nat, stale: int): int
    requires |P| == |W| && j <= |P|
    decreases |P| - j
  {
    if Spent(P, j) then stale
    else
      var v := PickFrom(P, W, j, -1);
      LastPick(Exchanged(P, v, j), Exchanged(W, v, j), j + 1, v)
  }

  function Positives(P: seq<int>): nat {
    if P == [] then 0 else (if P[0] > 0 then 1 else 0) + Positives(P[1..])
  }

  // ----- The selection -----

  lemma {:induction false} PickIsDensest(P: seq<int>, W: seq<int>, j: nat, i: nat, best: int)
    requires Items(W, P) && j <= i <= |P| && (best == -1 || j <= best < i)
    requires if best < 0 then forall k | j <= k < i :: P[k] == 0
             else P[best] > 0 && forall k | j <= k < i :: P[best] * W[k] >= P[k] * W[best]
    requires best >= 0 ==> forall k | j <= k < best :: P[best] * W[k] > P[k] * W[best]
    ensures var v := PickFrom(P, W, i, best);
            v >= 0 ==> j <= v < |P| && P[v] > 0 && forall k | j <= k < |P| :: P[v] * W[k] >= P[k] * W[v]
    ensures var v := PickFrom(P, W, i, best); v >= 0 ==> forall k | j <= k < v :: P[v] * W[k] > P[k] * W[v]
    decreases |P| - i
  {
    if i < |P| {
      var next := if P[i] > 0 && (best < 0 || P[i] * W[best] > P[best] * W[i]) then i else best;
      if next >= 0 {
        forall k | j <= k < i + 1 ensures P[next] * W[k] >= P[k] * W[next] {
          if best < 0 {
            ProductPositive(P[i], W[k]);
          } else if next == i && k < i {
            DensityTransitive(P[i], W[i], P[best], W[best], P[k], W[k]);
          } else if next == best && k == i && P[i] == 0 {
            ProductPositive(P[best], W[i]);
          }
        }
        forall k | j <= k < next ensures P[next] * W[k] > P[k] * W[next] {
          if best < 0 {
            ProductPositive(P[i], W[k]);
          } else if next == i {
            DenserTransitive(P[i], W[i], P[best], W[best], P[k], W[k]);
          }
        }
      }
      PickIsDensest(P, W, j, i + 1, next);
    }
  }

  lemma ProductPositive(a: int, b: int)
    requires a > 0 && b > 0
    ensures a * b > 0
  {
  }

  /** One turn of the outer loop while there is profit left. */
  lemma SelectStep(P: seq<int>, W: seq<int>, j: nat) returns (v: nat)
    requires Items(W, P) && j < |P| && !Spent(P, j) && SortedUpTo(P, W, j)
    ensures v == PickFrom(P, W, j, -1) && j <= v < |P| && P[v] > 0
    ensures Items(Exchanged(W, v, j), Exchanged(P, v, j))
    ensures SortedUpTo(Exchanged(P, v, j), Exchanged(W, v, j), j + 1) && Exchanged(P, v, j)[j] > 0
    ensures Positives(Exchanged(P, v, j)) == Positives(P)
  {
    v := PickFrom(P, W, j, -1);
    PickIsDensest(P, W, j, j, -1);
    SwapItems(W, P, v, j);
    SelectKeeps(P, W, j, v);
    PositivesSwap(P, v, j);
  }

  lemma {:induction false} PositivesUpdate(P: seq<int>, i: nat, x: int)
    requires i < |P|
    ensures Positives(P[i := x]) == Positives(P) - (if P[i] > 0 then 1 else 0) + if x > 0 then 1 else 0
  {
    if i == 0 {
      assert P[0 := x][1..] == P[1..];
    } else {
      assert P[i := x][1..] == P[1..][i - 1 := x];
      PositivesUpdate(P[1..], i - 1, x);
    }
  }

  lemma PositivesSwap(P: seq<int>, i: nat, j: nat)
    requires i < |P| && j < |P|
    ensures Positives(Exchanged(P, i, j)) == Positives(P)
  {
    PositivesUpdate(P, i, P[j]);
    PositivesUpdate(P[i := P[j]], j, P[i]);
  }

  lemma {:induction false} PositivesAre(P: seq<int>, m: nat)
    requires m <= |P| && (forall k | 0 <= k < m :: P[k] > 0) && Spent(P, m)
    ensures Positives(P) == m
  {
    if P != [] {
      PositivesAre(P[1..], if m > 0 then m - 1 else 0);
    }
  }

  // ----- Once no profit is left -----

  /** Exchanges among items without profit leave the others, and the order, alone. */
  lemma {:induction false} HarmlessTail(P: seq<int>, W: seq<int>, m: nat, j: nat, v: nat)
    requires Items(W, P) && m <= j <= |P| && m <= v < |P| && Spent(P, m) && SortedUpTo(P, W, m)
    ensures SortFrom(P, W, j, v).Sorted? && DensitySorted(SortFrom(P, W, j, v).W, SortFrom(P, W, j, v).P)
    decreases |P| - j
  {
    if j < |P| {
      SwapItems(W, P, v, j);
      HarmlessTail(Exchanged(P, v, j), Exchanged(W, v, j), m, j + 1, v);
    }
  }

  /** An item without profit stays in front of one that has some. */
  lemma {:induction false} HarmfulTail(P: seq<int>, W: seq<int>, m: nat, j: nat)
    requires Items(W, P) && 0 < m < j <= |P| && P[m - 1] == 0 && P[m] > 0 && Spent(P, m + 1)
    ensures SortFrom(P, W, j, m - 1).Sorted? && !DensitySorted(SortFrom(P, W, j, m - 1).W, SortFrom(P, W, j, m - 1).P)
    decreases |P| - j
  {
    if j < |P| {
      SwapItems(W, P, m - 1, j);
      HarmfulTail(Exchanged(P, m - 1, j), Exchanged(W, m - 1, j), m, j + 1);
    } else {
      ProductPositive(P[m], W[m - 1]);
      assert !(P[m - 1] * W[m] >= P[m] * W[m - 1]);
    }
  }

  /** The rest of the sort from the turn at which no profit is left. */
  lemma StaleTail(P: seq<int>, W: seq<int>, m: nat, v: int)
    requires Items(W, P) && m <= |P| && Spent(P, m) && SortedUpTo(P, W, m)
    requires forall k | 0 <= k < m :: P[k] > 0
    requires m > 0 ==> m - 1 <= v < |P|
    ensures SortFrom(P, W, m, v).Undefined? <==> m == 0 < |P| && !(0 <= v < |P|)
    ensures SortFrom(P, W, m, v).Sorted? ==>
              (DensitySorted(SortFrom(P, W, m, v).W, SortFrom(P, W, m, v).P) <==> m == 0 || m == |P| || v != m - 1)
  {
    if m < |P| && 0 <= v < |P| {
      if v >= m {
        HarmlessTail(P, W, m, m, v);
      } else {
        SwapItems(W, P, m - 1, m);
        HarmfulTail(Exchanged(P, m - 1, m), Exchanged(W, m - 1, m), m, m + 1);
      }
    }
  }

  // ----- The whole sort -----

  /** What becomes of `n` items, `m` of them with a profit, of which `last` was selected last. */
  ghost predicate SortFits(r: Sorted, m: nat, n: nat, stale: int, last: int) {
    && (r.Undefined? <==> m == 0 < n && !(0 <= stale < n))
    && (r.Sorted? ==> |r.P| == |r.W| && (DensitySorted(r.W, r.P) <==> m == 0 || m == n || last != m - 1))
  }

  /** Main result: the sort leaves the items in density order if and only if no profit is 0, all
      are, or the index selected last was not its own place.  It is undefined exactly when all are 0
      and the index, never assigned, is none. */
  lemma {:induction false} SortIsExact(P: seq<int>, W: seq<int>, j: nat, stale: int)
    requires Items(W, P) && j <= |P| && SortedUpTo(P, W, j)
    requires (forall k | 0 <= k < j :: P[k] > 0) && (j > 0 ==> j - 1 <= stale < |P|)
    ensures SortFits(SortFrom(P, W, j, stale), Positives(P), |P|, stale, LastPick(P, W, j, stale))
    decreases |P| - j
  {
    if Spent(P, j) {
      PositivesAre(P, j);
      StaleTail(P, W, j, stale);
    } else {
      var v := SelectStep(P, W, j);
      SortIsExact(Exchanged(P, v, j), Exchanged(W, v, j), j + 1, v);
      HasPositive(P, v);
    }
  }

  lemma {:induction false} HasPositive(P: seq<int>, k: nat)
    requires k < |P| && P[k] > 0
    ensures Positives(P) > 0
  {
    if k > 0 {
      HasPositive(P[1..], k - 1);
    }
  }

  /** The optimum stays. */
  lemma {:induction false} SortKeepsBest(P: seq<int>, W: seq<int>, j: nat, stale: int, M: nat)
    requires Items(W, P) && j <= |P| && SortFrom(P, W, j, stale).Sorted?
    ensures var r := SortFrom(P, W, j, stale); Items(r.W, r.P) && Best(r.W, r.P, 0, M) == Best(W, P, 0, M)
    decreases |P| - j
  {
    if j < |P| {
      var v := Chosen(P, W, j, stale);
      SwapItems(W, P, v, j);
      SwapKeepsBest(W, P, v, j, M);
      SortKeepsBest(Exchanged(P, v, j), Exchanged(W, v, j), j + 1, v, M);
    }
  }

  /** Whatever the profits are, the items are permuted. */
  lemma {:induction false} SortPermutes(P: seq<int>, W: seq<int>, j: nat, stale: int)
    requires Weighed(P, W) && j <= |P| && SortFrom(P, W, j, stale).Sorted?
    ensures var r := SortFrom(P, W, j, stale); Weighed(r.P, r.W) && multiset(Pairs(r.P, r.W)) == multiset(Pairs(P, W))
    decreases |P| - j
  {
    if j < |P| {
      var v := Chosen(P, W, j, stale);
      SwapWeighed(P, W, v, j);
      SortPermutes(Exchanged(P, v, j), Exchanged(W, v, j), j + 1, v);
    }
  }

  /** Whatever the profits are: an exchange outside the arrays happens exactly when no profit is positive
      and the index, never assigned, is outside. */
  lemma {:induction false} SortIsDefined(P: seq<int>, W: seq<int>, j: nat, stale: int)
    requires |P| == |W| && j <= |P|
    ensures SortFrom(P, W, j, stale).Undefined? <==> j < |P| && Spent(P, j) && !(0 <= stale < |P|)
    decreases |P| - j
  {
    if j < |P| {
      var v := Chosen(P, W, j, stale);
      if 0 <= v < |P| {
        SortIsDefined(Exchanged(P, v, j), Exchanged(W, v, j), j + 1, v);
      }
    }
  }

  /** Two items, the second without profit: the sort exchanges them and leaves them out of order. */
  lemma ZeroProfit(P: seq<int>, W: seq<int>, stale: int)
    requires P == [5, 0] && W == [6, 6]
    ensures SortFrom(P, W, 0, stale) == Sorted.Sorted([0, 5], [6, 6]) && !DensitySorted([6, 6], [0, 5])
  {
    assert !Spent(P, 0) by { assert P[0] == 5; }
    assert PickFrom(P, W, 1, 0) == PickFrom(P, W, 2, 0) == 0 && PickFrom(P, W, 0, -1) == 0;
    assert Exchanged(P, 0, 0) == P && Exchanged(W, 0, 0) == W;
    assert Exchanged(P, 0, 1) == [0, 5] && Exchanged(W, 0, 1) == W;
    assert SortFrom(P, W, 1, 0) == SortFrom([0, 5], W, 2, 0);
    var p := [0, 5];
    assert !(p[0] * W[1] >= p[1] * W[0]);
  }

  /** A cast to an integer: toward zero. */
  function Truncated(x: real): int
  {
    if x >= 0.0 then x.Floor else -(-x).Floor
  }

  function Scaled(r: real, s: real): real { r * s }

  /** GenRand, for a random number `r`. */
  function Drawn(off: int, spread: int, r: real): int {
    off + Truncated(Scaled(r, spread as real))
  }

  /** The generator draws profits around 3n: all are positive if and only if it is not told to
      spread them further down than that. */
  lemma ProfitsArePositive(n: int, spread: int)
    requires n > 0
    ensures (forall r | 0.0 <= r < 1.0 :: Drawn(3 * n, spread, r) > 0) <==> spread >= -3 * n
  {
    if spread >= -3 * n {
      forall r | 0.0 <= r < 1.0 ensures Drawn(3 * n, spread, r) > 0 {
        ScaledDown(r, spread as real);
        TruncatedAbove(Scaled(r, spread as real), spread);
      }
    } else {
      var r := DrawsNothing(3 * n, spread);
      assert !(Drawn(3 * n, spread, r) > 0);
    }
  }

  lemma DrawsNothing(off: int, spread: int) returns (r: real)
    requires off > 0 && spread < -off
    ensures 0.0 <= r < 1.0 && Drawn(off, spread, r) == 0
  {
    var p, s := off as real, spread as real;
    r := p / -s;
    assert r * -s == p;
    assert Scaled(r, s) == -p;
    assert (-(-p)).Floor == off;
  }

  lemma TruncatedAbove(x: real, lo: int)
    requires x >= 0.0 || x > lo as real
    ensures Truncated(x) >= 0 || Truncated(x) > lo
  {
  }

  lemma ScaledDown(r: real, s: real)
    requires 0.0 <= r < 1.0
    ensures Scaled(r, s) >= 0.0 || Scaled(r, s) > s
  {
    if s < 0.0 {
      NegativeProduct(1.0 - r, s);
      Spread(1.0 - r, r, s);
      assert Scaled(r, s) > s;
    } else {
      PositiveProduct(r, s);
    }
  }

  lemma Spread(a: real, r: real, s: real)
    requires a == 1.0 - r
    ensures a * s == s - r * s
  {
  }

  lemma PositiveProduct(a: real, b: real)
    requires a >= 0.0 && b >= 0.0
    ensures a * b >= 0.0
  {
  }

  lemma NegativeProduct(a: real, b: real)
    requires a > 0.0 && b < 0.0
    ensures a * b < 0.0
  {
  }

  // ----- The program -----

  /** What the inner loop knows before item `i`: `m` is the densest so far, or what it was if none has a
      profit. */
  ghost predicate Seen(p: seq<int>, w: seq<int>, j: nat, i: nat, stale: int, m: int, maxPW: real)
    requires Weighed(p, w) && j <= i <= |p| && j < |p|
  {
    if maxPW == 0.0
    then m == stale && PickFrom(p, w, i, -1) == PickFrom(p, w, j, -1)
    else && j <= m < i && p[m] > 0 && maxPW == p[m] as real / w[m] as real
         && PickFrom(p, w, i, m) == PickFrom(p, w, j, -1)
  }

  lemma SeenNext(p: seq<int>, w: seq<int>, j: nat, i: nat, stale: int, m: int, maxPW: real, ratio: real)
    requires Weighed(p, w) && j <= i < |p| && Seen(p, w, j, i, stale, m, maxPW) && ratio == p[i] as real / w[i] as real
    ensures ratio > 0.0 <==> p[i] > 0
    ensures if ratio > maxPW then Seen(p, w, j, i + 1, stale, i, ratio) else Seen(p, w, j, i + 1, stale, m, maxPW)
  {
    RatioLess(p[i], w[i], 0, 1);
    if maxPW != 0.0 {
      RatioLess(p[i], w[i], p[m], w[m]);
      RatioLess(p[m], w[m], 0, 1);
      if p[i] * w[m] > p[m] * w[i] {
        ProductPositive(p[m], w[i]);
      }
    }
  }

  /** The inner loop: the index of the densest item from `j` on, or the one it was given. */
  method Densest(P: array<int>, W: array<int>, j: nat, stale: int) returns (m: int)
    requires P.Length == W.Length && j < P.Length && Weighed(P[..], W[..])
    ensures m == Chosen(P[..], W[..], j, stale)
  {
    ghost var p, w := P[..], W[..];
    var maxPW := 0.0;
    m := stale;
    var i := j;
    while i < P.Length
      invariant j <= i <= P.Length && Seen(p, w, j, i, stale, m, maxPW)
    {
      var ratio := P[i] as real / W[i] as real;
      SeenNext(p, w, j, i, stale, m, maxPW, ratio);
      if ratio > maxPW {
        maxPW := ratio;
        m := i;
      }
      i := i + 1;
    }
  }

  /** `sort_PW`; `maxPWindex` is whatever the uninitialised variable holds.  `defined` is false
      where the program exchanges outside the arrays. */
  method SortPW(P: array<int>, W: array<int>, maxPWindex: int) returns (defined: bool)
    requires P != W && P.Length == W.Length && Weighed(P[..], W[..])
    modifies P, W
    ensures var r := SortFrom(old(P[..]), old(W[..]), 0, maxPWindex);
            defined == r.Sorted? && (defined ==> P[..] == r.P && W[..] == r.W)
    ensures defined <==> !Spent(old(P[..]), 0) || P.Length == 0 || 0 <= maxPWindex < P.Length
    ensures defined ==> multiset(Pairs(P[..], W[..])) == multiset(Pairs(old(P[..]), old(W[..])))
    ensures defined && old(Items(W[..], P[..])) ==>
              && (forall M: nat :: Best(W[..], P[..], 0, M) == Best(old(W[..]), old(P[..]), 0, M))
              && var m := Positives(old(P[..]));
                 (DensitySorted(W[..], P[..]) <==>
                  m == 0 || m == P.Length || LastPick(old(P[..]), old(W[..]), 0, maxPWindex) != m - 1)
  {
    ghost var p0, w0 := P[..], W[..];
    SortIsDefined(p0, w0, 0, maxPWindex);
    ghost var goal := SortFrom(p0, w0, 0, maxPWindex);
    if Items(w0, p0) {
      SortIsExact(p0, w0, 0, maxPWindex);
      forall M: nat | goal.Sorted? {
        SortKeepsBest(p0, w0, 0, maxPWindex, M);
      }
    }
    var index := maxPWindex;
    for j := 0 to P.Length
      invariant Weighed(P[..], W[..]) && SortFrom(P[..], W[..], j, index) == goal
    {
      index := Densest(P, W, j, index);
      if !(0 <= index < P.Length) {
        return false;
      }
      SwapWeighed(P[..], W[..], index, j);
      SwapPW(P, W, index, j);
    }
    if goal.Sorted? {
      SortPermutes(p0, w0, 0, maxPWindex);
    }
    return true;
  }
}
