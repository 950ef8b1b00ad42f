/** `knap_bfs` and the program around it: a breadth-first frontier in a ring of `breadth`
states, then one depth-first call per state. */
module KnapFrontier {
  import opened Knapsack
  import opened KnapSearch
  import M = ModPower

  const MAX_BREADTH: nat := 1000

  datatype State = State(i: nat, cp: int, M: int)

  /** `Finished` is the return of Opt, `Open` the return of -1 with the states that are left.
      `opt` of an `Open` result is the local variable that the program forgets. */
  datatype Result = Finished(opt: int, glow: int) | Open(live: seq<State>, opt: int, glow: int)

  predicate InRange(W: seq<int>, live: seq<State>) {
    forall k | 0 <= k < |live| :: live[k].i <= |W|
  }

  function Pow3(n: nat): (r: nat)
    ensures r >= 1
  {
    if n == 0 then 1 else 3 * Pow3(n - 1)
  }

  /** The termination measure: a state stands for three of the next level, and two follow it. */
  function Work(W: seq<int>, live: seq<State>): nat
    requires InRange(W, live)
  {
    if live == [] then 0
    else Pow3(|W| - live[0].i) + Work(W, live[1..])
  }

  lemma {:induction false} WorkAppend(W: seq<int>, live: seq<State>, more: seq<State>)
    requires InRange(W, live) && InRange(W, more)
    ensures InRange(W, live + more)
    ensures Work(W, live + more) == Work(W, live) + Work(W, more)
  {
    if live == [] {
      assert live + more == more;
    } else {
      assert (live + more)[1..] == live[1..] + more;
      WorkAppend(W, live[1..], more);
    }
  }

  function Take(W: seq<int>, P: seq<int>, s: State): State
    requires |W| == |P| && s.i < |W|
  {
    State(s.i + 1, s.cp + P[s.i], s.M - W[s.i])
  }

  function Skip(s: State): State { State(s.i + 1, s.cp, s.M) }

  lemma PairWork(W: seq<int>, a: State, b: State)
    requires a.i <= |W| && b.i <= |W|
    ensures InRange(W, [a, b])
    ensures Work(W, [a, b]) == Pow3(|W| - a.i) + Pow3(|W| - b.i)
  {
    assert [a, b][1..] == [b] && [b][1..] == [];
    assert Work(W, [b]) == Pow3(|W| - b.i) + Work(W, []);
  }

  lemma PowStep(n: nat)
    requires n > 0
    ensures Pow3(n) == 3 * Pow3(n - 1)
  {}

  lemma ExpansionWorks(W: seq<int>, live: seq<State>, take: State, skip: State)
    requires live != [] && InRange(W, live) && live[0].i < |W|
    requires take.i == skip.i == live[0].i + 1
    ensures InRange(W, live[1..] + [take, skip])
    ensures Work(W, live[1..] + [take, skip]) < Work(W, live)
  {
    PairWork(W, take, skip);
    WorkAppend(W, live[1..], [take, skip]);
    PowStep(|W| - live[0].i);
  }

  lemma SkipWorks(W: seq<int>, live: seq<State>, skip: State)
    requires live != [] && InRange(W, live) && live[0].i < |W| && skip.i == live[0].i + 1
    ensures InRange(W, [skip] + live[1..])
    ensures Work(W, [skip] + live[1..]) < Work(W, live)
  {
    assert ([skip] + live[1..])[1..] == live[1..];
    PowStep(|W| - live[0].i);
  }

  predicate Prunes(W: seq<int>, P: seq<int>, s: State, glow: int)
    requires Items(W, P) && s.i <= |W|
  {
    glow >= s.cp + Sum(P, s.i, Break(W, s.i, s.M)) && s.cp + Upper(W, P, s.i, s.M) < glow
  }

  /** The loop of `knap_bfs` on the list of live states. */
  function Search(W: seq<int>, P: seq<int>, breadth: nat, live: seq<State>, opt: int, glow: int): Result
    requires Items(W, P) && live != [] && InRange(W, live)
    decreases Work(W, live)
  {
    if |live| >= breadth then Open(live, opt, glow)
    else
      var s := live[0];
      var opt' := Max(opt, s.cp);
      if s.i >= |W| || s.M <= 0 || Prunes(W, P, s, glow) then
        if |live| == 1 then Finished(opt', glow)
        else Search(W, P, breadth, live[1..], opt', glow)
      else
        ExpansionWorks(W, live, Take(W, P, s), Skip(s));
        SkipWorks(W, live, Skip(s));
        var glow' := Max(glow, s.cp + Sum(P, s.i, Break(W, s.i, s.M)));
        if s.M >= W[s.i] then
          Search(W, P, breadth, live[1..] + [Take(W, P, s), Skip(s)], opt', glow')
        else
          Search(W, P, breadth, [Skip(s)] + live[1..], opt', glow')
  }

  // ----- What the search keeps -----

  /** The best complete solution below a state. */
  function Value(W: seq<int>, P: seq<int>, s: State): int
    requires |W| == |P| && s.i <= |W|
  {
    s.cp + Best(W, P, s.i, s.M)
  }

  /** The best of `base` and everything below the live states. */
  function LiveBest(W: seq<int>, P: seq<int>, live: seq<State>, base: int): int
    requires |W| == |P| && InRange(W, live)
  {
    if live == [] then base else Max(Value(W, P, live[0]), LiveBest(W, P, live[1..], base))
  }

  lemma {:induction false} LiveBestAppend(W: seq<int>, P: seq<int>, live: seq<State>, more: seq<State>, base: int)
    requires |W| == |P| && InRange(W, live) && InRange(W, more)
    ensures InRange(W, live + more)
    ensures LiveBest(W, P, live + more, base) == LiveBest(W, P, live, LiveBest(W, P, more, base))
  {
    if live == [] {
      assert live + more == more;
    } else {
      assert (live + more)[1..] == live[1..] + more;
      LiveBestAppend(W, P, live[1..], more, base);
    }
  }

  lemma {:induction false} LiveBestBase(W: seq<int>, P: seq<int>, live: seq<State>, a: int, b: int)
    requires |W| == |P| && InRange(W, live)
    ensures LiveBest(W, P, live, Max(a, b)) == Max(LiveBest(W, P, live, a), b)
    ensures LiveBest(W, P, live, a) >= a
  {
    if live != [] { LiveBestBase(W, P, live[1..], a, b); }
  }

  ghost predicate Below(live: seq<State>, glow: int) {
    forall k | 0 <= k < |live| :: live[k].cp <= glow
  }

  /** What relates the live states, Opt and GLow to the optimum `top` at every step. */
  ghost predicate Exact(W: seq<int>, P: seq<int>, live: seq<State>, opt: int, glow: int, top: int)
    requires |W| == |P| && InRange(W, live)
  {
    LiveBest(W, P, live, opt) == top && opt <= glow <= top && Below(live, glow)
  }

  lemma DropKeeps(W: seq<int>, P: seq<int>, live: seq<State>, opt: int, glow: int, top: int)
    requires Items(W, P) && DensitySorted(W, P) && live != [] && InRange(W, live)
    requires Exact(W, P, live, opt, glow, top)
    requires var s := live[0]; s.i >= |W| || s.M <= 0 || Prunes(W, P, s, glow)
    ensures Exact(W, P, live[1..], Max(opt, live[0].cp), glow, top)
  {
    var s := live[0];
    var rest := live[1..];
    LiveBestBase(W, P, rest, opt, s.cp);
    BestNonNegative(W, P, s.i, s.M);
    if s.i < |W| && s.M > 0 {
      UpperIsSound(W, P, s.i, s.M);
    }
  }

  lemma SplitValue(W: seq<int>, P: seq<int>, s: State)
    requires Items(W, P) && s.i < |W|
    ensures Value(W, P, s) == if s.M >= W[s.i] then Max(Value(W, P, Take(W, P, s)), Value(W, P, Skip(s)))
                              else Value(W, P, Skip(s))
    ensures s.cp <= Value(W, P, s)
  {
    BestNonNegative(W, P, s.i, s.M);
  }

  lemma PairBest(W: seq<int>, P: seq<int>, a: State, b: State, base: int)
    requires |W| == |P| && a.i <= |W| && b.i <= |W|
    ensures InRange(W, [a, b])
    ensures LiveBest(W, P, [a, b], base) == Max(Max(Value(W, P, a), Value(W, P, b)), base)
  {
    assert [a, b][1..] == [b] && [b][1..] == [];
    assert LiveBest(W, P, [b], base) == Max(Value(W, P, b), LiveBest(W, P, [], base));
  }

  lemma ExpandKeeps(W: seq<int>, P: seq<int>, live: seq<State>, opt: int, glow: int, top: int)
    requires Items(W, P) && DensitySorted(W, P) && live != [] && InRange(W, live)
    requires Exact(W, P, live, opt, glow, top)
    requires live[0].i < |W| && live[0].M > 0 && live[0].M >= W[live[0].i]
    ensures var s := live[0]; var live' := live[1..] + [Take(W, P, s), Skip(s)];
            && InRange(W, live')
            && Exact(W, P, live', Max(opt, s.cp), Max(glow, s.cp + Sum(P, s.i, Break(W, s.i, s.M))), top)
  {
    var s := live[0];
    var take, skip := Take(W, P, s), Skip(s);
    SplitValue(W, P, s);
    FillIsFeasible(W, P, s.i, s.M);
    FillIsFeasible(W, P, s.i + 1, s.M - W[s.i]);
    ExpandBest(W, P, live, take, skip, opt);
  }

  lemma ExpandBest(W: seq<int>, P: seq<int>, live: seq<State>, take: State, skip: State, opt: int)
    requires |W| == |P| && live != [] && InRange(W, live) && take.i <= |W| && skip.i <= |W|
    requires Value(W, P, live[0]) == Max(Value(W, P, take), Value(W, P, skip)) >= live[0].cp
    ensures InRange(W, live[1..] + [take, skip])
    ensures LiveBest(W, P, live[1..] + [take, skip], Max(opt, live[0].cp)) == LiveBest(W, P, live, opt)
  {
    var s, rest := live[0], live[1..];
    PairBest(W, P, take, skip, Max(opt, s.cp));
    LiveBestAppend(W, P, rest, [take, skip], Max(opt, s.cp));
    LiveBestBase(W, P, rest, opt, Max(Value(W, P, s), s.cp));
  }

  lemma SkipKeeps(W: seq<int>, P: seq<int>, live: seq<State>, opt: int, glow: int, top: int)
    requires Items(W, P) && DensitySorted(W, P) && live != [] && InRange(W, live)
    requires Exact(W, P, live, opt, glow, top)
    requires live[0].i < |W| && live[0].M > 0 && live[0].M < W[live[0].i]
    ensures var s := live[0]; var live' := [Skip(s)] + live[1..];
            && InRange(W, live')
            && Exact(W, P, live', Max(opt, s.cp), Max(glow, s.cp + Sum(P, s.i, Break(W, s.i, s.M))), top)
  {
    var s := live[0];
    var live' := [Skip(s)] + live[1..];
    SplitValue(W, P, s);
    FillIsFeasible(W, P, s.i, s.M);
    LiveBestBase(W, P, live[1..], opt, s.cp);
    assert live'[1..] == live[1..];
    LiveBestBase(W, P, live[1..], opt, opt);
  }

  /** Main result: the optimum is never lost from Opt and the live states together, and GLow
      never exceeds it.  So a returned Opt is the optimum. */
  lemma {:induction false} SearchKeeps(W: seq<int>, P: seq<int>, breadth: nat, live: seq<State>, opt: int, glow: int, top: int)
    requires Items(W, P) && DensitySorted(W, P) && live != [] && InRange(W, live)
    requires Exact(W, P, live, opt, glow, top)
    ensures match Search(W, P, breadth, live, opt, glow)
            case Finished(o, gl) => o == top && gl == top
            case Open(live', o, gl) => InRange(W, live') && |live'| >= breadth && Exact(W, P, live', o, gl, top)
    decreases Work(W, live)
  {
    if |live| < breadth {
      var s := live[0];
      var opt' := Max(opt, s.cp);
      if s.i >= |W| || s.M <= 0 || Prunes(W, P, s, glow) {
        DropKeeps(W, P, live, opt, glow, top);
        if |live| > 1 { SearchKeeps(W, P, breadth, live[1..], opt', glow, top); }
      } else {
        ExpansionWorks(W, live, Take(W, P, s), Skip(s));
        SkipWorks(W, live, Skip(s));
        var glow' := Max(glow, s.cp + Sum(P, s.i, Break(W, s.i, s.M)));
        if s.M >= W[s.i] {
          ExpandKeeps(W, P, live, opt, glow, top);
          SearchKeeps(W, P, breadth, live[1..] + [Take(W, P, s), Skip(s)], opt', glow', top);
        } else {
          SkipKeeps(W, P, live, opt, glow, top);
          SearchKeeps(W, P, breadth, [Skip(s)] + live[1..], opt', glow', top);
        }
      }
    }
  }

  // ----- The ring -----

  function Slot(breadth: nat, first: nat, k: nat): nat
    requires first < breadth && k <= breadth
  {
    if first + k < breadth then first + k else first + k - breadth
  }

  lemma NextSlot(breadth: nat, first: nat)
    requires first < breadth
    ensures (first + 1) % breadth == Slot(breadth, first, 1)
  {
    if first + 1 < breadth { SmallModulus(first + 1, breadth); }
  }

  lemma SmallModulus(x: nat, m: nat)
    requires x < m
    ensures x % m == x
  {}

  /** The `total` states of the ring from `first` on. */
  ghost function Ring(states: seq<State>, breadth: nat, first: nat, total: nat): seq<State>
    requires first < breadth && total <= breadth <= |states|
  {
    seq(total, k requires 0 <= k < total => states[Slot(breadth, first, k)])
  }

  /** Two states are queued while the first one leaves; the second of them may take its slot. */
  lemma RingExpand(states: seq<State>, breadth: nat, first: nat, total: nat, take: State, skip: State)
    requires first < breadth && 1 <= total < breadth <= |states|
    ensures var last := Slot(breadth, first, total - 1);
            var a := Slot(breadth, last, 1);
            var b := Slot(breadth, a, 1);
            Ring(states[a := take][b := skip], breadth, Slot(breadth, first, 1), total + 1)
            == Ring(states, breadth, first, total)[1..] + [take, skip]
            && b == Slot(breadth, Slot(breadth, first, 1), total)
  {}

  lemma RingSkip(states: seq<State>, breadth: nat, first: nat, total: nat, skip: State)
    requires first < breadth && 1 <= total <= breadth <= |states|
    ensures Ring(states[first := skip], breadth, first, total) == [skip] + Ring(states, breadth, first, total)[1..]
  {}

  lemma RingDrop(states: seq<State>, breadth: nat, first: nat, total: nat)
    requires first < breadth && 2 <= total <= breadth <= |states|
    ensures Ring(states, breadth, Slot(breadth, first, 1), total - 1) == Ring(states, breadth, first, total)[1..]
    ensures Slot(breadth, Slot(breadth, first, 1), total - 2) == Slot(breadth, first, total - 1)
  {}

  // One iteration of the search, branch by branch.

  lemma SearchDrop(W: seq<int>, P: seq<int>, breadth: nat, live: seq<State>, opt: int, glow: int)
    requires Items(W, P) && live != [] && InRange(W, live) && |live| < breadth
    requires live[0].i >= |W| || live[0].M <= 0 || Prunes(W, P, live[0], glow)
    ensures Search(W, P, breadth, live, opt, glow) ==
            if |live| == 1 then Finished(Max(opt, live[0].cp), glow)
            else Search(W, P, breadth, live[1..], Max(opt, live[0].cp), glow)
    ensures Work(W, live[1..]) < Work(W, live)
  {}

  lemma SearchExpand(W: seq<int>, P: seq<int>, breadth: nat, live: seq<State>, opt: int, glow: int,
                     take: State, skip: State, glow': int)
    requires Items(W, P) && live != [] && InRange(W, live) && |live| < breadth
    requires live[0].i < |W| && live[0].M > 0 && !Prunes(W, P, live[0], glow) && live[0].M >= W[live[0].i]
    requires take == Take(W, P, live[0]) && skip == Skip(live[0])
    requires glow' == Max(glow, live[0].cp + Sum(P, live[0].i, Break(W, live[0].i, live[0].M)))
    ensures InRange(W, live[1..] + [take, skip]) && Work(W, live[1..] + [take, skip]) < Work(W, live)
    ensures Search(W, P, breadth, live, opt, glow) ==
            Search(W, P, breadth, live[1..] + [take, skip], Max(opt, live[0].cp), glow')
  {
    ExpansionWorks(W, live, take, skip);
  }

  lemma SearchSkip(W: seq<int>, P: seq<int>, breadth: nat, live: seq<State>, opt: int, glow: int,
                   skip: State, glow': int)
    requires Items(W, P) && live != [] && InRange(W, live) && |live| < breadth
    requires live[0].i < |W| && live[0].M > 0 && !Prunes(W, P, live[0], glow) && live[0].M < W[live[0].i]
    requires skip == Skip(live[0])
    requires glow' == Max(glow, live[0].cp + Sum(P, live[0].i, Break(W, live[0].i, live[0].M)))
    ensures InRange(W, [skip] + live[1..]) && Work(W, [skip] + live[1..]) < Work(W, live)
    ensures Search(W, P, breadth, live, opt, glow) ==
            Search(W, P, breadth, [skip] + live[1..], Max(opt, live[0].cp), glow')
  {
    SkipWorks(W, live, skip);
  }

  /** The global array `states` with the variables first, last and total of `knap_bfs`. */
  class StateRing {
    var states: array<State>
    var breadth: nat
    var first: nat
    var last: nat
    var total: nat

    ghost predicate Valid()
      reads this
    {
      && 1 <= total <= breadth <= MAX_BREADTH == states.Length
      && first < breadth && last == Slot(breadth, first, total - 1)
    }

    /** The live states, oldest first. */
    ghost function Live(): (live: seq<State>)
      requires Valid()
      reads this, states
    {
      Ring(states[..], breadth, first, total)
    }

    constructor (breadth: nat, root: State)
      requires 1 <= breadth <= MAX_BREADTH
      ensures Valid() && fresh(states) && this.breadth == breadth && Live() == [root]
    {
      this.breadth, first, last, total := breadth, 0, 0, 1;
      states := new State[MAX_BREADTH](i => root);
    }

    /** A dead state leaves; false when it was the only one. */
    method Drop() returns (left: bool)
      requires Valid()
      modifies this
      ensures Valid() && breadth == old(breadth) && states == old(states)
      ensures left == (|old(Live())| > 1)
      ensures Live() == if left then old(Live())[1..] else old(Live())
    {
      if first == last { return false; }
      RingDrop(states[..], breadth, first, total);
      NextSlot(breadth, first);
      first := (first + 1) % breadth;
      total := total - 1;
      return true;
    }

    /** The two states below the first one are queued, the take case first, and it leaves. */
    method Expand(take: State, skip: State)
      requires Valid() && total < breadth
      modifies this, states
      ensures Valid() && breadth == old(breadth) && states == old(states)
      ensures Live() == old(Live())[1..] + [take, skip]
    {
      RingExpand(states[..], breadth, first, total, take, skip);
      NextSlot(breadth, first);
      NextSlot(breadth, last);
      last := (last + 1) % breadth;
      states[last] := take;
      assert states[..] == old(states[..])[last := take];
      ghost var mid := states[..];
      NextSlot(breadth, last);
      last := (last + 1) % breadth;
      states[last] := skip;
      assert states[..] == mid[last := skip];
      first := (first + 1) % breadth;
      total := total + 1;
    }

    /** The first state moves to the next item in place. */
    method Advance()
      requires Valid()
      modifies states
      ensures Valid()
      ensures Live() == [Skip(old(Live())[0])] + old(Live())[1..]
    {
      RingSkip(states[..], breadth, first, total, Skip(states[first]));
      states[first] := states[first].(i := states[first].i + 1);
      assert states[..] == old(states[..])[first := Skip(old(states[first]))];
    }
  }

  /** The condition `i >= N || M <= 0 || bound(...)`, with its effect on GLow. */
  method IsDead(W: seq<int>, P: seq<int>, s: State, g: Incumbent) returns (dead: bool)
    requires Items(W, P) && DensitySorted(W, P) && s.i <= |W|
    modifies g
    ensures dead == (s.i >= |W| || s.M <= 0 || Prunes(W, P, s, old(g.value)))
    ensures g.value == if dead then old(g.value)
                       else Max(old(g.value), s.cp + Sum(P, s.i, Break(W, s.i, s.M)))
  {
    dead := s.i >= |W| || s.M <= 0;
    if !dead { dead := Bound(W, P, s.i, s.cp, s.M, g); }
  }

  /** One turn of the loop of `knap_bfs`; `done` when the last state has left. */
  method Turn(W: seq<int>, P: seq<int>, ring: StateRing, best: int, g: Incumbent, ghost live: seq<State>)
    returns (done: bool, best': int, ghost live': seq<State>)
    requires Items(W, P) && DensitySorted(W, P) && ring.Valid() && ring.total < ring.breadth
    requires live == ring.Live() && InRange(W, live)
    modifies ring, ring.states, g
    ensures ring.Valid() && ring.breadth == old(ring.breadth) && ring.states == old(ring.states)
    ensures !done ==> live' == ring.Live() && InRange(W, live') && Work(W, live') < Work(W, live)
    ensures Search(W, P, ring.breadth, live, best, old(g.value)) ==
            if done then Finished(best', g.value) else Search(W, P, ring.breadth, live', best', g.value)
  {
    var s := ring.states[ring.first];
    assert s == live[0];
    ghost var breadth, glow := ring.breadth, g.value;
    done, best', live' := false, if s.cp > best then s.cp else best, live;
    var dead := IsDead(W, P, s, g);
    if dead {
      SearchDrop(W, P, breadth, live, best, glow);
      var left := ring.Drop();
      done := !left;
      live' := live[1..];
    } else if s.M >= W[s.i] {
      var take, skip := State(s.i + 1, s.cp + P[s.i], s.M - W[s.i]), State(s.i + 1, s.cp, s.M);
      SearchExpand(W, P, breadth, live, best, glow, take, skip, g.value);
      ring.Expand(take, skip);
      live' := live[1..] + [take, skip];
    } else {
      SearchSkip(W, P, breadth, live, best, glow, Skip(s), g.value);
      ring.Advance();
      live' := [Skip(s)] + live[1..];
    }
  }

  /** `knap_bfs`: the result is that of the search on lists, -1 standing for an open one.  A breadth
      below 1 ends at once, as a breadth of 1 does. */
  method KnapBfs(W: seq<int>, P: seq<int>, capacity: int, breadth: int, g: Incumbent)
    returns (r: int, ring: StateRing, ghost opt: int)
    requires Items(W, P) && DensitySorted(W, P) && breadth <= MAX_BREADTH
    modifies g
    ensures fresh(ring) && fresh(ring.states) && ring.Valid() && ring.breadth == Max(breadth, 1)
    ensures match Search(W, P, ring.breadth, [State(0, 0, capacity)], 0, old(g.value))
            case Finished(o, gl) => breadth > 1 && r == o && g.value == gl
            case Open(live, o, gl) =>
              r == -1 && opt == o && g.value == gl && live == ring.Live() && ring.total == ring.breadth
  {
    ring := new StateRing(Max(breadth, 1), State(0, 0, capacity));
    ghost var live := ring.Live();
    ghost var goal := Search(W, P, ring.breadth, live, 0, g.value);
    var best := 0;
    while ring.total < breadth
      invariant fresh(ring) && fresh(ring.states) && ring.Valid() && ring.breadth == Max(breadth, 1)
      invariant live == ring.Live() && InRange(W, live)
      invariant goal == Search(W, P, ring.breadth, live, best, g.value)
      decreases Work(W, live)
    {
      var done;
      done, best, live := Turn(W, P, ring, best, g, live);
      if done { return best, ring, best; }
    }
    return -1, ring, best;
  }

  // ----- The whole program -----

  lemma RotatedBest(W: seq<int>, P: seq<int>, a: seq<State>, b: seq<State>, base: int)
    requires |W| == |P| && InRange(W, a) && InRange(W, b)
    ensures InRange(W, a + b) && InRange(W, b + a)
    ensures LiveBest(W, P, a + b, base) == LiveBest(W, P, b + a, base)
  {
    LiveBestAppend(W, P, a, b, base);
    LiveBestAppend(W, P, b, a, base);
    LiveBestBase(W, P, a, base, LiveBest(W, P, b, base));
    LiveBestBase(W, P, b, base, LiveBest(W, P, a, base));
    LiveBestBase(W, P, a, base, base);
    LiveBestBase(W, P, b, base, base);
  }

  lemma LastBest(W: seq<int>, P: seq<int>, live: seq<State>, base: int)
    requires |W| == |P| && InRange(W, live) && live != []
    ensures var n := |live| - 1;
            LiveBest(W, P, live, base) == Max(LiveBest(W, P, live[..n], base), Value(W, P, live[n]))
  {
    var n := |live| - 1;
    assert live == live[..n] + [live[n]];
    LiveBestAppend(W, P, live[..n], [live[n]], base);
    LiveBestBase(W, P, live[..n], base, Value(W, P, live[n]));
  }

  ghost predicate AtMost(W: seq<int>, P: seq<int>, live: seq<State>, top: int)
    requires |W| == |P| && InRange(W, live)
  {
    forall k | 0 <= k < |live| :: Value(W, P, live[k]) <= top
  }

  lemma {:induction false} BestAtMost(W: seq<int>, P: seq<int>, live: seq<State>, base: int, top: int)
    requires |W| == |P| && InRange(W, live)
    ensures LiveBest(W, P, live, base) <= top <==> base <= top && AtMost(W, P, live, top)
  {
    if live != [] {
      BestAtMost(W, P, live[1..], base, top);
      assert forall k | 1 <= k < |live| :: live[k] == live[1..][k - 1];
    }
  }

  /** No open state has earned more than `r`. */
  ghost predicate Earned(live: seq<State>, r: int) {
    forall s | s in live :: s.cp <= r
  }

  /** The loop of `main` over the open states, one `knap_dfs` after another. */
  method SearchOpen(W: seq<int>, P: seq<int>, live: seq<State>, g: Incumbent, ghost top: int) returns (r: int)
    requires Items(W, P) && DensitySorted(W, P) && InRange(W, live) && Below(live, g.value)
    requires g.value <= top && AtMost(W, P, live, top)
    modifies g
    ensures -1 <= r <= LiveBest(W, P, live, -1) && Earned(live, r)
    ensures LiveBest(W, P, live, -1) == top ==> r == top
    ensures g.value == LiveBest(W, P, live, old(g.value))
  {
    r := -1;
    assert live[..0] == [];
    for k := 0 to |live|
      invariant g.value == LiveBest(W, P, live[..k], old(g.value)) && old(g.value) <= g.value <= top
      invariant -1 <= r <= LiveBest(W, P, live[..k], -1) && Earned(live[..k], r)
      invariant LiveBest(W, P, live[..k], -1) == top ==> r == top
    {
      assert live[..k + 1][..k] == live[..k];
      LastBest(W, P, live[..k + 1], old(g.value));
      LastBest(W, P, live[..k + 1], -1);
      var rr := KnapDfs(W, P, live[k].i, live[k].cp, live[k].M, g);
      if rr > r { r := rr; }
    }
    assert live[..|live|] == live;
  }

  /** The same loop with its calls in parallel: `glow(t)` is what the t-th reading of GLow
      finds, by a thread that shares the variable or by a remote call that got a copy of it. */
  method SearchOpenRacing(W: seq<int>, P: seq<int>, live: seq<State>, glow: nat -> int, ghost top: int)
    returns (r: int)
    requires Items(W, P) && DensitySorted(W, P) && InRange(W, live)
    requires AtMost(W, P, live, top) && forall t: nat :: glow(t) <= top
    ensures -1 <= r <= LiveBest(W, P, live, -1) && Earned(live, r)
    ensures LiveBest(W, P, live, -1) == top ==> r == top
  {
    r := -1;
    var t := 0;
    assert live[..0] == [];
    for k := 0 to |live|
      invariant -1 <= r <= LiveBest(W, P, live[..k], -1) && Earned(live[..k], r)
      invariant LiveBest(W, P, live[..k], -1) == top ==> r == top
    {
      assert live[..k + 1][..k] == live[..k];
      LastBest(W, P, live[..k + 1], -1);
      var rr, stored;
      rr, t, stored := KnapDfsRacing(W, P, live[k].i, live[k].cp, live[k].M, glow, t, top);
      if rr > r { r := rr; }
    }
    assert live[..|live|] == live;
  }

  /** The result of the breadth-first phase on a whole problem. */
  function Root(W: seq<int>, P: seq<int>, capacity: int, breadth: nat): Result
    requires Items(W, P)
  {
    Search(W, P, breadth, [State(0, 0, capacity)], 0, 0)
  }

  /** The program forgets Opt when the frontier is full; that matters when no open state
      reaches it. */
  ghost predicate Forgets(W: seq<int>, P: seq<int>, res: Result)
    requires |W| == |P| && (res.Open? ==> InRange(W, res.live))
  {
    res.Open? && LiveBest(W, P, res.live, -1) < res.opt
  }

  lemma RootKeeps(W: seq<int>, P: seq<int>, capacity: int, breadth: nat)
    requires Items(W, P) && DensitySorted(W, P) && capacity >= 0
    ensures var top := Best(W, P, 0, capacity);
            match Root(W, P, capacity, breadth)
            case Finished(o, gl) => o == top && gl == top
            case Open(live, o, gl) =>
              && InRange(W, live) && |live| >= breadth && Below(live, gl) && gl <= top && AtMost(W, P, live, top)
              && o <= top && Max(o, LiveBest(W, P, live, -1)) == top && LiveBest(W, P, live, gl) == top
  {
    var top := Best(W, P, 0, capacity);
    var root := [State(0, 0, capacity)];
    BestNonNegative(W, P, 0, capacity);
    assert root[1..] == [];
    assert LiveBest(W, P, root, 0) == Max(Value(W, P, root[0]), LiveBest(W, P, [], 0));
    SearchKeeps(W, P, breadth, root, 0, 0, top);
    var res := Root(W, P, capacity, breadth);
    if res.Open? {
      SearchKeepsPositive(W, P, breadth, root, 0, 0);
      BestAtMost(W, P, res.live, res.opt, top);
      LiveBestBase(W, P, res.live, -1, res.opt);
      LiveBestBase(W, P, res.live, res.opt, res.glow);
    }
  }

  lemma {:induction false} SearchKeepsPositive(W: seq<int>, P: seq<int>, breadth: nat, live: seq<State>, opt: int, glow: int)
    requires Items(W, P) && live != [] && InRange(W, live) && opt >= 0
    ensures var res := Search(W, P, breadth, live, opt, glow); res.opt >= 0
    decreases Work(W, live)
  {
    if |live| < breadth {
      var s := live[0];
      var opt' := Max(opt, s.cp);
      if s.i >= |W| || s.M <= 0 || Prunes(W, P, s, glow) {
        if |live| > 1 { SearchKeepsPositive(W, P, breadth, live[1..], opt', glow); }
      } else {
        ExpansionWorks(W, live, Take(W, P, s), Skip(s));
        SkipWorks(W, live, Skip(s));
        var glow' := Max(glow, s.cp + Sum(P, s.i, Break(W, s.i, s.M)));
        if s.M >= W[s.i] {
          SearchKeepsPositive(W, P, breadth, live[1..] + [Take(W, P, s), Skip(s)], opt', glow');
        } else {
          SearchKeepsPositive(W, P, breadth, [Skip(s)] + live[1..], opt', glow');
        }
      }
    }
  }

  // ----- A frontier that never fills up -----

  /** The states that can follow a live one on the last level. */
  function Leaves(W: seq<int>, live: seq<State>): (n: nat)
    requires InRange(W, live)
    ensures n >= |live|
  {
    if live == [] then 0 else M.Pow2(|W| - live[0].i) + Leaves(W, live[1..])
  }

  lemma {:induction false} LeavesAppend(W: seq<int>, live: seq<State>, more: seq<State>)
    requires InRange(W, live) && InRange(W, more)
    ensures InRange(W, live + more)
    ensures Leaves(W, live + more) == Leaves(W, live) + Leaves(W, more)
  {
    if live == [] {
      assert live + more == more;
    } else {
      assert (live + more)[1..] == live[1..] + more;
      LeavesAppend(W, live[1..], more);
    }
  }

  lemma PairLeaves(W: seq<int>, a: State, b: State)
    requires a.i <= |W| && b.i <= |W|
    ensures InRange(W, [a, b])
    ensures Leaves(W, [a, b]) == M.Pow2(|W| - a.i) + M.Pow2(|W| - b.i)
  {
    assert [a, b][1..] == [b] && [b][1..] == [];
    assert Leaves(W, [b]) == M.Pow2(|W| - b.i) + Leaves(W, []);
  }

  /** A search with room for every leaf comes to its end. */
  lemma {:induction false} RoomForAll(W: seq<int>, P: seq<int>, breadth: nat, live: seq<State>, opt: int, glow: int)
    requires Items(W, P) && live != [] && InRange(W, live) && Leaves(W, live) < breadth
    ensures Search(W, P, breadth, live, opt, glow).Finished?
    decreases Work(W, live)
  {
    var s := live[0];
    var opt' := Max(opt, s.cp);
    if s.i >= |W| || s.M <= 0 || Prunes(W, P, s, glow) {
      if |live| > 1 { RoomForAll(W, P, breadth, live[1..], opt', glow); }
    } else {
      var take, skip := Take(W, P, s), Skip(s);
      var glow' := Max(glow, s.cp + Sum(P, s.i, Break(W, s.i, s.M)));
      if s.M >= W[s.i] {
        PairLeaves(W, take, skip);
        LeavesAppend(W, live[1..], [take, skip]);
        SearchExpand(W, P, breadth, live, opt, glow, take, skip, glow');
        RoomForAll(W, P, breadth, live[1..] + [take, skip], opt', glow');
      } else {
        assert ([skip] + live[1..])[1..] == live[1..];
        SearchSkip(W, P, breadth, live, opt, glow, skip, glow');
        RoomForAll(W, P, breadth, [skip] + live[1..], opt', glow');
      }
    }
  }

  /** A frontier of two states is full as soon as one is split; until then nothing has been earned. */
  lemma {:induction false} FirstSplit(W: seq<int>, P: seq<int>, s: State, opt: int, glow: int)
    requires Items(W, P) && s.i <= |W| && opt <= s.cp
    ensures var res := Search(W, P, 2, [s], opt, glow);
            res.Open? ==> InRange(W, res.live) && LiveBest(W, P, res.live, -1) >= res.opt
    decreases |W| - s.i
  {
    var live := [s];
    assert live[1..] == [];
    if !(s.i >= |W| || s.M <= 0 || Prunes(W, P, s, glow)) {
      var take, skip := Take(W, P, s), Skip(s);
      var glow' := Max(glow, s.cp + Sum(P, s.i, Break(W, s.i, s.M)));
      if s.M >= W[s.i] {
        SearchExpand(W, P, 2, live, opt, glow, take, skip, glow');
        assert live[1..] + [take, skip] == [take, skip];
        PairBest(W, P, take, skip, -1);
        BestNonNegative(W, P, skip.i, skip.M);
      } else {
        SearchSkip(W, P, 2, live, opt, glow, skip, glow');
        assert [skip] + live[1..] == [skip];
        FirstSplit(W, P, skip, Max(opt, s.cp), glow');
      }
    }
  }

  /** Nothing is forgotten with a frontier of one state or two, or one with room for every selection. */
  lemma NeverForgets(W: seq<int>, P: seq<int>, capacity: int, breadth: nat)
    requires Items(W, P) && DensitySorted(W, P) && capacity >= 0 && (breadth <= 2 || breadth > M.Pow2(|W|))
    ensures var res := Root(W, P, capacity, breadth);
            (res.Open? ==> InRange(W, res.live)) && !Forgets(W, P, res)
  {
    var s := State(0, 0, capacity);
    var root := [s];
    RootKeeps(W, P, capacity, breadth);
    BestNonNegative(W, P, 0, capacity);
    assert root[1..] == [];
    if breadth == 2 {
      FirstSplit(W, P, s, 0, 0);
    } else if breadth > 2 {
      assert Leaves(W, root) == M.Pow2(|W|) + Leaves(W, []);
      RoomForAll(W, P, breadth, root, 0, 0);
    }
  }

  lemma RingIsRotation(slots: seq<State>, first: nat)
    requires first < |slots|
    ensures Ring(slots, |slots|, first, |slots|) == slots[first..] + slots[..first]
  {}

  lemma RotationKeeps(W: seq<int>, P: seq<int>, a: seq<State>, b: seq<State>, glow: int, top: int)
    requires |W| == |P| && InRange(W, a + b) && AtMost(W, P, a + b, top) && Below(a + b, glow)
    ensures InRange(W, b + a) && AtMost(W, P, b + a, top) && Below(b + a, glow)
  {
    assert forall k | 0 <= k < |a| :: a[k] == (a + b)[k];
    assert forall k | 0 <= k < |b| :: b[k] == (a + b)[|a| + k];
  }

  /** The slots of a full ring hold the live states, rotated. */
  lemma FullRing(W: seq<int>, P: seq<int>, slots: seq<State>, first: nat, glow: int, top: int, base: int)
    requires |W| == |P| && first < |slots|
    requires var live := Ring(slots, |slots|, first, |slots|);
             InRange(W, live) && AtMost(W, P, live, top) && Below(live, glow)
    ensures InRange(W, slots) && AtMost(W, P, slots, top) && Below(slots, glow)
    ensures LiveBest(W, P, slots, base) == LiveBest(W, P, Ring(slots, |slots|, first, |slots|), base)
    ensures forall s | s in Ring(slots, |slots|, first, |slots|) :: s in slots
  {
    var a, b := slots[first..], slots[..first];
    RingIsRotation(slots, first);
    RotationKeeps(W, P, a, b, glow, top);
    assert slots == b + a;
    assert InRange(W, a) && InRange(W, b);
    RotatedBest(W, P, a, b, base);
  }

  /** The value is the optimum exactly when the breadth-first phase does not forget it; otherwise it is
      between what the open states have earned and what they lead to. */
  ghost predicate Solved(W: seq<int>, P: seq<int>, capacity: int, breadth: nat, printed: int)
    requires Items(W, P)
  {
    var res := Root(W, P, capacity, breadth);
    && (res.Open? ==> InRange(W, res.live))
    && printed <= Best(W, P, 0, capacity)
    && (printed == Best(W, P, 0, capacity) <==> !Forgets(W, P, res))
    && (res.Open? ==> printed <= LiveBest(W, P, res.live, -1) && Earned(res.live, printed))
  }

  /** Main result: the sequential program leaves the optimum in GLow, and it prints the
      optimum exactly when the breadth-first phase does not forget it.  With a breadth below 1 it
      searches nothing. */
  method Solve(W: seq<int>, P: seq<int>, capacity: int, breadth: int) returns (printed: int, g: Incumbent)
    requires Items(W, P) && DensitySorted(W, P) && capacity >= 0 && breadth <= MAX_BREADTH
    ensures breadth >= 1 ==> Solved(W, P, capacity, breadth, printed) && g.value == Best(W, P, 0, capacity)
    ensures breadth < 1 ==> printed == -1 && g.value == 0
  {
    g := new Incumbent(0);
    RootKeeps(W, P, capacity, Max(breadth, 1));
    var ring;
    ghost var opt;
    printed, ring, opt := KnapBfs(W, P, capacity, breadth, g);
    BestNonNegative(W, P, 0, capacity);
    if printed < 0 {
      var slots := ring.states[..Max(breadth, 0)];
      if breadth >= 1 {
        assert ring.Live() == Ring(slots, breadth, ring.first, breadth);
        FullRing(W, P, slots, ring.first, g.value, Best(W, P, 0, capacity), -1);
        FullRing(W, P, slots, ring.first, g.value, Best(W, P, 0, capacity), g.value);
      }
      printed := SearchOpen(W, P, slots, g, Best(W, P, 0, capacity));
    }
  }

  /** The same program with its `knap_dfs` calls in parallel, whatever they see of GLow. */
  method SolveRacing(W: seq<int>, P: seq<int>, capacity: int, breadth: int, glow: nat -> int) returns (printed: int)
    requires Items(W, P) && DensitySorted(W, P) && capacity >= 0 && breadth <= MAX_BREADTH
    requires forall t: nat :: glow(t) <= Best(W, P, 0, capacity)
    ensures breadth >= 1 ==> Solved(W, P, capacity, breadth, printed)
    ensures breadth < 1 ==> printed == -1
  {
    var g := new Incumbent(0);
    RootKeeps(W, P, capacity, Max(breadth, 1));
    var ring;
    ghost var opt;
    printed, ring, opt := KnapBfs(W, P, capacity, breadth, g);
    BestNonNegative(W, P, 0, capacity);
    if printed < 0 {
      var slots := ring.states[..Max(breadth, 0)];
      if breadth >= 1 {
        assert ring.Live() == Ring(slots, breadth, ring.first, breadth);
        FullRing(W, P, slots, ring.first, g.value, Best(W, P, 0, capacity), -1);
      }
      printed := SearchOpenRacing(W, P, slots, glow, Best(W, P, 0, capacity));
    }
  }

  // ----- A problem whose optimum the program forgets -----

  const W0: seq<int> := [7, 3, 3, 3]
  const P0: seq<int> := [35, 15, 15, 15]

  lemma ItemsOfExample()
    ensures Items(W0, P0) && DensitySorted(W0, P0)
  {}

  lemma ExampleStart()
    ensures Items(W0, P0)
    ensures Root(W0, P0, 7, 3) == Search(W0, P0, 3, [State(1, 0, 7)], 35, 35)
  {
    ItemsOfExample();
    var s0, s1 := [State(0, 0, 7)], [State(1, 35, 0), State(1, 0, 7)];
    assert Break(W0, 0, 7) == 1 && Sum(P0, 0, 1) == 35;
    SearchExpand(W0, P0, 3, s0, 0, 0, s1[0], s1[1], 35);
    assert s0[1..] + [s1[0], s1[1]] == s1;
    SearchDrop(W0, P0, 3, s1, 0, 35);
    assert s1[1..] == [State(1, 0, 7)];
  }

  lemma ExampleMiddle()
    ensures Items(W0, P0)
    ensures Search(W0, P0, 3, [State(1, 0, 7)], 35, 35) == Search(W0, P0, 3, [State(2, 15, 4), State(2, 0, 7)], 35, 35)
  {
    ItemsOfExample();
    var s2, s3 := [State(1, 0, 7)], [State(2, 15, 4), State(2, 0, 7)];
    assert Break(W0, 1, 7) == 3 && Sum(P0, 1, 3) == 30 && Sum(W0, 1, 3) == 6;
    SearchExpand(W0, P0, 3, s2, 35, 35, s3[0], s3[1], 35);
    assert s2[1..] + [s3[0], s3[1]] == s3;
  }

  lemma ExampleEnd()
    ensures Items(W0, P0)
    ensures Search(W0, P0, 3, [State(2, 15, 4), State(2, 0, 7)], 35, 35)
            == Open([State(2, 0, 7), State(3, 30, 1), State(3, 15, 4)], 35, 35)
  {
    ItemsOfExample();
    var s3, s4 := [State(2, 15, 4), State(2, 0, 7)], [State(2, 0, 7), State(3, 30, 1), State(3, 15, 4)];
    assert Break(W0, 2, 4) == 3 && Sum(P0, 2, 3) == 15 && Sum(W0, 2, 3) == 3;
    SearchExpand(W0, P0, 3, s3, 35, 35, s4[1], s4[2], 35);
    assert s3[1..] + [s4[1], s4[2]] == s4;
  }

  lemma ExampleValues()
    ensures Best(W0, P0, 0, 7) == 35
    ensures LiveBest(W0, P0, [State(2, 0, 7), State(3, 30, 1), State(3, 15, 4)], -1) == 30
  {
    var s4 := [State(2, 0, 7), State(3, 30, 1), State(3, 15, 4)];
    assert Best(W0, P0, 1, 7) == 30 && Best(W0, P0, 2, 7) == 30;
    assert Best(W0, P0, 3, 1) == 0 && Best(W0, P0, 3, 4) == 15;
    assert s4[1..] == [State(3, 30, 1), State(3, 15, 4)] && s4[1..][1..] == [State(3, 15, 4)];
    assert s4[1..][1..][1..] == [];
  }

  lemma ExampleRoot()
    ensures Items(W0, P0)
    ensures Root(W0, P0, 7, 3) == Open([State(2, 0, 7), State(3, 30, 1), State(3, 15, 4)], 35, 35)
  {
    ExampleStart();
    ExampleMiddle();
    ExampleEnd();
  }

  lemma ForgetsIntro(W: seq<int>, P: seq<int>, res: Result)
    requires |W| == |P| && res.Open? && InRange(W, res.live) && LiveBest(W, P, res.live, -1) < res.opt
    ensures Forgets(W, P, res)
  {}

  /** Four items, capacity 7, breadth 3: the best selection is the first item alone, the
      breadth-first phase drops the state that holds it because no capacity is left, and the
      three open states lead to 30 at most. */
  lemma ProgramForgets() returns (res: Result)
    ensures Items(W0, P0) && DensitySorted(W0, P0) && res == Root(W0, P0, 7, 3)
    ensures res.Open? && InRange(W0, res.live) && Forgets(W0, P0, res) && State(3, 30, 1) in res.live
    ensures Best(W0, P0, 0, 7) == 35 && LiveBest(W0, P0, res.live, -1) == 30
  {
    res := Open([State(2, 0, 7), State(3, 30, 1), State(3, 15, 4)], 35, 35);
    ItemsOfExample();
    ExampleRoot();
    ExampleValues();
    ForgetsIntro(W0, P0, res);
  }

  /** The program prints 30 there, where 35 can be had. */
  method PrintsThirty() returns (printed: int)
    ensures Best(W0, P0, 0, 7) == 35 && printed == 30
  {
    ghost var res := ProgramForgets();
    assert State(3, 30, 1).cp == 30;
    var g;
    printed, g := Solve(W0, P0, 7, 3);
  }
}
