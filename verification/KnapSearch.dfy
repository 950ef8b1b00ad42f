/** `bound` and `knap_dfs`: depth-first branch and bound around a shared incumbent. */
module KnapSearch {
  import opened Knapsack

  /** The variable behind the pointer `g_lwb`. */
  class Incumbent {
    var value: int

    constructor (v: int)
      ensures value == v
    {
      value := v;
    }
  }

  /** Raises the incumbent to the greedy profit, or says that the subproblem is below it.
      The two never happen together. */
  method Bound(W: seq<int>, P: seq<int>, i: nat, cp: int, M: int, g: Incumbent) returns (prune: bool)
    requires Items(W, P) && DensitySorted(W, P) && i <= |W| && M >= 0
    modifies g
    ensures prune ==> cp + Best(W, P, i, M) < g.value && g.value == old(g.value)
    ensures !prune ==> g.value == Max(old(g.value), cp + Sum(P, i, Break(W, i, M)))
    ensures prune <==> old(g.value) >= cp + Sum(P, i, Break(W, i, M)) && cp + Upper(W, P, i, M) < old(g.value)
  {
    var lwb, ii, m := cp, i, M;
    while ii < |W| && m >= W[ii]
      invariant i <= ii <= |W|
      invariant Break(W, i, M) == Break(W, ii, m) && m >= 0
      invariant lwb + Sum(P, ii, Break(W, ii, m)) == cp + Sum(P, i, Break(W, i, M))
      invariant m - Sum(W, ii, Break(W, ii, m)) == M - Sum(W, i, Break(W, i, M))
      decreases |W| - ii
    {
      m := m - W[ii];
      lwb := lwb + P[ii];
      ii := ii + 1;
    }
    var upb := if ii < |W| then lwb + (m * P[ii]) / W[ii] else lwb;
    UpperIsSound(W, P, i, M);
    if g.value < lwb {
      g.value := lwb;
    } else if upb < g.value {
      return true;
    }
    return false;
  }

  /** Main result: in spite of pruning, the incumbent ends at the larger of its old value and
      the optimum of the subproblem, and the returned value is that optimum unless the
      incumbent already beats it. */
  method KnapDfs(W: seq<int>, P: seq<int>, i: nat, cp: int, M: int, g: Incumbent) returns (r: int)
    requires Items(W, P) && DensitySorted(W, P) && i <= |W|
    requires cp <= g.value
    modifies g
    ensures g.value == Max(old(g.value), cp + Best(W, P, i, M))
    ensures cp <= r <= cp + Best(W, P, i, M)
    ensures r == cp + Best(W, P, i, M) || cp + Best(W, P, i, M) < g.value
    decreases |W| - i
  {
    BestNonNegative(W, P, i, M);
    r := cp;
    if i < |W| && M > 0 {
      var prune := Bound(W, P, i, cp, M, g);
      if prune { return; }
      FillIsFeasible(W, P, i, M);
      if M >= W[i] {
        assert Break(W, i, M) == Break(W, i + 1, M - W[i]);
        FillIsFeasible(W, P, i + 1, M - W[i]);
        var left := KnapDfs(W, P, i + 1, cp + P[i], M - W[i], g);
        var right := KnapDfs(W, P, i + 1, cp, M, g);
        r := if left > right then left else right;
      } else {
        r := KnapDfs(W, P, i + 1, cp, M, g);
      }
    }
  }

  /** The root call of the sequential program. */
  method SolveByDfs(W: seq<int>, P: seq<int>, capacity: int) returns (r: int)
    requires Items(W, P) && DensitySorted(W, P) && capacity >= 0
    ensures forall chosen :: Feasible(W, 0, capacity, chosen) ==> Total(P, chosen) <= r
    ensures exists chosen :: Feasible(W, 0, capacity, chosen) && Total(P, chosen) == r
  {
    var g := new Incumbent(0);
    BestNonNegative(W, P, 0, capacity);
    r := KnapDfs(W, P, 0, 0, capacity, g);
    assert W[0..] == W && P[0..] == P;
    forall chosen | Feasible(W, 0, capacity, chosen)
      ensures Total(P, chosen) <= r
    {
      BestIsUpperBound(W, P, 0, capacity, chosen);
    }
    ghost var chosen := BestIsAchieved(W, P, 0, capacity);
  }

  /** `knap_dfs` while other OpenMP threads write GLow without a lock: `glow(t)` is whatever
      the t-th reading of GLow finds.  Nothing is assumed about it, except that it does not
      exceed `top`; and every value that this thread stores keeps to that, too, so the
      assumption holds of any set of threads whose subproblems do not beat `top`.  The answer
      is exact whenever the subproblem contains the overall optimum, however stale or torn
      the readings are. */
  method KnapDfsRacing(W: seq<int>, P: seq<int>, i: nat, cp: int, M: int, glow: nat -> int, t: nat, ghost top: int)
    returns (r: int, t': nat, stored: seq<int>)
    requires Items(W, P) && DensitySorted(W, P) && i <= |W|
    requires forall n: nat :: glow(n) <= top
    requires cp + Best(W, P, i, M) <= top
    ensures cp <= r <= cp + Best(W, P, i, M)
    ensures cp + Best(W, P, i, M) == top ==> r == top
    ensures forall k | 0 <= k < |stored| :: stored[k] <= cp + Best(W, P, i, M)
    decreases |W| - i
  {
    BestNonNegative(W, P, i, M);
    r, t', stored := cp, t, [];
    if i < |W| && M > 0 {
      var g := new Incumbent(glow(t));
      t' := t + 1;
      var prune := Bound(W, P, i, cp, M, g);
      FillIsFeasible(W, P, i, M);
      if prune { return; }
      if g.value != glow(t) { stored := [g.value]; }
      var more: seq<int>;
      if M >= W[i] {
        var left, right;
        left, t', more := KnapDfsRacing(W, P, i + 1, cp + P[i], M - W[i], glow, t', top);
        stored := stored + more;
        right, t', more := KnapDfsRacing(W, P, i + 1, cp, M, glow, t', top);
        stored := stored + more;
        r := if left > right then left else right;
      } else {
        r, t', more := KnapDfsRacing(W, P, i + 1, cp, M, glow, t', top);
        stored := stored + more;
      }
    }
  }
}
