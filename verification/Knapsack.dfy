/** The 0-1 knapsack problem of the branch-and-bound example: its optimum by definition,
its optimum by recursion, and the fractional greedy bound. */
module Knapsack {

  /** Weights are positive and profits are not negative. */
  ghost predicate Items(W: seq<int>, P: seq<int>) {
    |W| == |P| && (forall k | 0 <= k < |W| :: W[k] > 0) && forall k | 0 <= k < |P| :: P[k] >= 0
  }

  /** Non-increasing profit per weight, without division. */
  ghost predicate DensitySorted(W: seq<int>, P: seq<int>)
    requires |W| == |P|
  {
    forall a, b | 0 <= a < b < |W| :: P[a] * W[b] >= P[b] * W[a]
  }

  function Max(a: int, b: int): int { if a < b then b else a }

  // ----- The optimum by definition -----

  /** The weight (or the profit) of the chosen items. */
  function Total(values: seq<int>, chosen: seq<bool>): int
    requires |values| == |chosen|
  {
    if values == [] then 0 else (if chosen[0] then values[0] else 0) + Total(values[1..], chosen[1..])
  }

  /** `chosen` is a selection of the items from `i` on that fits in capacity `M`. */
  ghost predicate Feasible(W: seq<int>, i: nat, M: int, chosen: seq<bool>) {
    i <= |W| && |chosen| == |W| - i && Total(W[i..], chosen) <= M
  }

  // ----- The optimum by recursion -----

  function Best(W: seq<int>, P: seq<int>, i: nat, M: int): int
    requires |W| == |P| && i <= |W|
    decreases |W| - i
  {
    if i == |W| then 0
    else if W[i] <= M then Max(P[i] + Best(W, P, i + 1, M - W[i]), Best(W, P, i + 1, M))
    else Best(W, P, i + 1, M)
  }

  lemma {:induction false} WeightsNonNegative(W: seq<int>, P: seq<int>, i: nat, chosen: seq<bool>)
    requires Items(W, P) && i <= |W| && |chosen| == |W| - i
    ensures Total(W[i..], chosen) >= 0
    decreases |chosen|
  {
    if chosen != [] {
      assert W[i..][1..] == W[i + 1..];
      WeightsNonNegative(W, P, i + 1, chosen[1..]);
    }
  }

  /** No feasible selection earns more than `Best`. */
  lemma {:induction false} BestIsUpperBound(W: seq<int>, P: seq<int>, i: nat, M: int, chosen: seq<bool>)
    requires Items(W, P) && i <= |W| && Feasible(W, i, M, chosen)
    ensures Total(P[i..], chosen) <= Best(W, P, i, M)
    decreases |chosen|
  {
    if i < |W| {
      assert W[i..][1..] == W[i + 1..] && P[i..][1..] == P[i + 1..];
      WeightsNonNegative(W, P, i + 1, chosen[1..]);
      BestIsUpperBound(W, P, i + 1, if chosen[0] then M - W[i] else M, chosen[1..]);
    }
  }

  /** Some feasible selection earns `Best`. */
  lemma {:induction false} BestIsAchieved(W: seq<int>, P: seq<int>, i: nat, M: int) returns (chosen: seq<bool>)
    requires Items(W, P) && i <= |W| && M >= 0
    ensures Feasible(W, i, M, chosen) && Total(P[i..], chosen) == Best(W, P, i, M)
    decreases |W| - i
  {
    if i == |W| {
      chosen := [];
    } else {
      assert W[i..][1..] == W[i + 1..] && P[i..][1..] == P[i + 1..];
      var take := W[i] <= M && P[i] + Best(W, P, i + 1, M - W[i]) >= Best(W, P, i + 1, M);
      var rest := BestIsAchieved(W, P, i + 1, if take then M - W[i] else M);
      chosen := [take] + rest;
      assert chosen[1..] == rest;
    }
  }

  lemma {:induction false} BestNonNegative(W: seq<int>, P: seq<int>, i: nat, M: int)
    requires Items(W, P) && i <= |W|
    ensures Best(W, P, i, M) >= 0
    ensures M <= 0 ==> Best(W, P, i, M) == 0
    decreases |W| - i
  {
    if i < |W| {
      BestNonNegative(W, P, i + 1, M);
    }
  }

  // ----- The greedy fill and the fractional bound -----

  /** The first item the greedy fill of capacity `M` does not take. */
  function Break(W: seq<int>, i: nat, M: int): (ii: nat)
    requires i <= |W|
    ensures i <= ii <= |W|
    decreases |W| - i
  {
    if i < |W| && M >= W[i] then Break(W, i + 1, M - W[i]) else i
  }

  function Sum(s: seq<int>, lo: nat, hi: nat): int
    requires lo <= hi <= |s|
    decreases hi - lo
  {
    if lo == hi then 0 else s[lo] + Sum(s, lo + 1, hi)
  }

  /** The fill fits, earns what a feasible selection earns, and stops for a reason. */
  lemma {:induction false} FillIsFeasible(W: seq<int>, P: seq<int>, i: nat, M: int)
    requires Items(W, P) && i <= |W| && M >= 0
    ensures var ii := Break(W, i, M);
            && Sum(W, i, ii) <= M && (ii < |W| ==> M - Sum(W, i, ii) < W[ii])
            && 0 <= Sum(P, i, ii) <= Best(W, P, i, M)
    decreases |W| - i
  {
    BestNonNegative(W, P, i, M);
    if i < |W| && M >= W[i] {
      FillIsFeasible(W, P, i + 1, M - W[i]);
    }
  }

  /** Capacity spent on items no denser than the break item earns at most its density. */
  lemma {:induction false} SparseBest(W: seq<int>, P: seq<int>, i: nat, ii: nat, M: int)
    requires Items(W, P) && DensitySorted(W, P) && ii <= i <= |W| && ii < |W| && M >= 0
    ensures Best(W, P, i, M) * W[ii] <= P[ii] * M
    decreases |W| - i
  {
    if i < |W| {
      SparseBest(W, P, i + 1, ii, M);
      if W[i] <= M {
        SparseBest(W, P, i + 1, ii, M - W[i]);
        var b := Best(W, P, i + 1, M - W[i]);
        assert P[i] * W[ii] <= P[ii] * W[i];
        Distribute(P[i], b, W[ii]);
        Distribute(W[i], M - W[i], P[ii]);
      }
    } else {
      assert P[ii] * M >= 0;
    }
  }

  lemma Distribute(a: int, b: int, c: int)
    ensures (a + b) * c == a * c + b * c
  {}

  /** Scaled by the break weight, no selection beats the items before the break plus the
      break density on what they leave free. */
  lemma {:induction false} FractionalBest(W: seq<int>, P: seq<int>, i: nat, ii: nat, M: int)
    requires Items(W, P) && DensitySorted(W, P) && i <= ii < |W| && M >= 0
    ensures Best(W, P, i, M) * W[ii] <= Sum(P, i, ii) * W[ii] + P[ii] * (M - Sum(W, i, ii))
    decreases ii - i
  {
    if i == ii {
      SparseBest(W, P, i, ii, M);
    } else {
      var w, p := W[ii], P[ii];
      var rest, used := Sum(P, i + 1, ii), Sum(W, i + 1, ii);
      assert P[i] * w >= p * W[i];
      FractionalBest(W, P, i + 1, ii, M);
      Distribute(P[i], rest, w);
      Distribute(W[i], M - W[i] - used, p);
      assert p * (M - used) == p * W[i] + p * (M - W[i] - used);
      if W[i] <= M {
        FractionalBest(W, P, i + 1, ii, M - W[i]);
        Distribute(P[i], Best(W, P, i + 1, M - W[i]), w);
      }
    }
  }

  /** The bound of `bound`: greedy profit plus the floor of the break item's share. */
  function Upper(W: seq<int>, P: seq<int>, i: nat, M: int): int
    requires Items(W, P) && i <= |W|
  {
    var ii := Break(W, i, M);
    Sum(P, i, ii) + if ii < |W| then ((M - Sum(W, i, ii)) * P[ii]) / W[ii] else 0
  }

  lemma {:induction false} TakeAll(W: seq<int>, P: seq<int>, i: nat, M: int)
    requires Items(W, P) && i <= |W|
    ensures Best(W, P, i, M) <= Sum(P, i, |W|)
    decreases |W| - i
  {
    if i < |W| {
      TakeAll(W, P, i + 1, M);
      if W[i] <= M { TakeAll(W, P, i + 1, M - W[i]); }
    }
  }

  lemma FloorBound(x: int, a: int, w: int)
    requires w > 0 && x * w <= a
    ensures x <= a / w
  {
    var over := x - a / w - 1;
    assert a == (a / w) * w + a % w;
    assert over * w == x * w - (a / w) * w - w;
    NegativeFactor(over, w);
  }

  lemma NegativeFactor(y: int, w: int)
    requires w > 0 && y * w < 0
    ensures y < 0
  {}

  /** Main result: with items in density order the floored fractional value bounds every
      feasible selection from above, and the greedy profit is earned by one of them. */
  lemma UpperIsSound(W: seq<int>, P: seq<int>, i: nat, M: int)
    requires Items(W, P) && DensitySorted(W, P) && i <= |W| && M >= 0
    ensures Sum(P, i, Break(W, i, M)) <= Best(W, P, i, M) <= Upper(W, P, i, M)
  {
    var ii := Break(W, i, M);
    FillIsFeasible(W, P, i, M);
    if ii == |W| {
      TakeAll(W, P, i, M);
    } else {
      FractionalBest(W, P, i, ii, M);
      var g, m := Sum(P, i, ii), M - Sum(W, i, ii);
      var x := Best(W, P, i, M) - g;
      assert x * W[ii] == Best(W, P, i, M) * W[ii] - g * W[ii];
      FloorBound(x, m * P[ii], W[ii]);
    }
  }

  /** The same in terms of selections. */
  lemma UpperBoundsSelections(W: seq<int>, P: seq<int>, i: nat, M: int, chosen: seq<bool>)
    requires Items(W, P) && DensitySorted(W, P) && i <= |W| && M >= 0 && Feasible(W, i, M, chosen)
    ensures Total(P[i..], chosen) <= Upper(W, P, i, M)
  {
    BestIsUpperBound(W, P, i, M, chosen);
    UpperIsSound(W, P, i, M);
  }
}
