/** The accounts of the round-robin scheduler: job slots and live executables of every host, and
what each operation does to them. */
module Accounts {
  import opened RpcPool

  function Sum(s: seq<int>): int {
    if s == [] then 0 else s[0] + Sum(s[1..])
  }

  lemma {:induction false} SumUpdate(s: seq<int>, i: nat, v: int)
    requires i < |s|
    ensures Sum(s[i := v]) == Sum(s) - s[i] + v
  {
    if i > 0 {
      SumUpdate(s[1..], i - 1, v);
      assert s[i := v][1..] == s[1..][i - 1 := v];
    } else {
      assert s[i := v][1..] == s[1..];
    }
  }

  /** The counters and limits of the hosts, the host used last, and the executables that are idle
      (in the order of the queue) and in use. */
  datatype State = State(jobs: seq<int>, limits: seq<int>, last: nat, idle: seq<Exe>, busy: seq<Exe>)

  predicate Shaped(s: State) {
    |s.jobs| == |s.limits| > s.last
  }

  /** No counter exceeds its limit, and in all they count the live executables. */
  predicate Sound(s: State) {
    && Shaped(s)
    && (forall h | 0 <= h < |s.jobs| :: s.jobs[h] <= s.limits[h])
    && Sum(s.jobs) == |s.idle| + |s.busy|
  }

  // ----- Which host is found -----

  /** The `i`-th host visited after `last`. */
  function Visited(last: nat, i: nat, n: nat): (h: nat)
    requires last < n && i < n
    ensures h < n
  {
    if last + 1 + i < n then last + 1 + i else last + 1 + i - n
  }

  lemma Wraps(x: nat, n: nat)
    requires n > 0
    ensures x < n ==> x % n == x
    ensures n <= x < 2 * n ==> x % n == x - n
  {
    if n <= x < 2 * n {
      assert x == 1 * n + (x - n);
    }
  }

  predicate CanRun(has: seq<bool>, jobs: seq<int>, limits: seq<int>, h: int) {
    0 <= h < |has| && h < |jobs| && h < |limits| && has[h] && jobs[h] < limits[h]
  }

  /** None of the first `i` hosts visited can run another executable. */
  predicate NoneCanRun(has: seq<bool>, jobs: seq<int>, limits: seq<int>, last: nat, i: nat)
    requires last < |has| && i <= |has|
  {
    forall k | 0 <= k < i :: !CanRun(has, jobs, limits, Visited(last, k, |has|))
  }

  predicate NoneHas(has: seq<bool>, last: nat, i: nat)
    requires last < |has| && i <= |has|
  {
    forall k | 0 <= k < i :: !has[Visited(last, k, |has|)]
  }

  function VisitOf(last: nat, h: nat, n: nat): (i: nat)
    requires last < n && h < n
    ensures i < n && Visited(last, i, n) == h
  {
    if h > last then h - last - 1 else h - last - 1 + n
  }

  /** The visits reach every host: a search that found none has seen them all. */
  lemma AllVisited(has: seq<bool>, jobs: seq<int>, limits: seq<int>, last: nat)
    requires last < |has|
    ensures NoneHas(has, last, |has|) <==> forall h | 0 <= h < |has| :: !has[h]
    ensures NoneCanRun(has, jobs, limits, last, |has|) <==> forall h :: !CanRun(has, jobs, limits, h)
  {
    forall h | 0 <= h < |has|
      ensures NoneHas(has, last, |has|) ==> !has[h]
      ensures NoneCanRun(has, jobs, limits, last, |has|) ==> !CanRun(has, jobs, limits, h)
    {
      assert Visited(last, VisitOf(last, h, |has|), |has|) == h;
    }
  }

  predicate OnlyOn(has: seq<bool>, h: nat) {
    forall k | 0 <= k < |has| && k != h :: !has[k]
  }

  /** The candidate is the host visited last exactly when no other host has the module. */
  lemma CandidateIsLast(has: seq<bool>, last: nat, at: nat)
    requires last < |has| && at < |has| && has[Visited(last, at, |has|)] && NoneHas(has, last, at)
    ensures Visited(last, at, |has|) == last <==> OnlyOn(has, last)
  {
    if Visited(last, at, |has|) == last {
      forall k | 0 <= k < |has| && k != last ensures !has[k] {
        assert Visited(last, VisitOf(last, k, |has|), |has|) == k;
      }
    }
  }

  // ----- The operations -----

  /** The `i`-th is the first that fits; none does when there is no `i`-th. */
  predicate First(es: seq<Exe>, want: Want, i: nat) {
    && i <= |es| && (forall k | 0 <= k < i :: !Fits(es[k], want))
    && (i < |es| ==> Fits(es[i], want))
  }

  /** How a pass ends: with the `i`-th idle executable; with a new one on a host found at visit
      `at`; with a new one in place of the `i`-th idle executable, of the host found at visit `at`;
      with the fatal error that no host has the module; or with a wait. */
  datatype How =
    | Reused(i: nat)
    | Started(at: nat)
    | Replaced(at: nat, i: nat)
    | NoHost
    | NoVictim

  predicate ReusedIn(s: State, i: nat, t: State) {
    i < |s.idle| && t == s.(idle := Without(s.idle, i), busy := s.busy + [s.idle[i]])
  }

  predicate StartedIn(s: State, at: nat, t: State, m: int, has: seq<bool>)
    requires Shaped(s) && |has| == |s.jobs|
  {
    && at < |has| && NoneCanRun(has, s.jobs, s.limits, s.last, at)
    && var h := Visited(s.last, at, |has|);
       && CanRun(has, s.jobs, s.limits, h)
       && t == s.(jobs := s.jobs[h := s.jobs[h] + 1], last := h, busy := s.busy + [Exe(h, m, 0)])
  }

  /** The victim was idle on the candidate; the new executable runs on the host visited last. */
  predicate ReplacedIn(s: State, at: nat, i: nat, t: State, m: int, has: seq<bool>)
    requires Shaped(s) && |has| == |s.jobs|
  {
    && NoneCanRun(has, s.jobs, s.limits, s.last, |has|)
    && at < |has| && NoneHas(has, s.last, at)
    && var h := Visited(s.last, at, |has|);
       && has[h] && i < |s.idle| && First(s.idle, Other(h, m), i)
       && t == s.(last := h, idle := Without(s.idle, i), busy := s.busy + [Exe(s.last, m, 0)])
  }

  predicate NoVictimIn(s: State, m: int, has: seq<bool>)
    requires Shaped(s) && |has| == |s.jobs|
  {
    && NoneCanRun(has, s.jobs, s.limits, s.last, |has|)
    && exists at: nat | at < |has| ::
         && NoneHas(has, s.last, at) && has[Visited(s.last, at, |has|)]
         && First(s.idle, Other(Visited(s.last, at, |has|), m), |s.idle|)
  }

  /** What a pass does when no idle executable suits. */
  predicate Fresh(s: State, how: How, t: State, m: int, has: seq<bool>)
    requires Shaped(s) && |has| == |s.jobs|
  {
    match how
    case Reused(_) => false
    case Started(at) => StartedIn(s, at, t, m, has)
    case Replaced(at, i) => ReplacedIn(s, at, i, t, m, has)
    case NoHost => NoneHas(has, s.last, |has|) && t == s
    case NoVictim => NoVictimIn(s, m, has) && t == s
  }

  /** One pass of omrpc_schedule_rpc for module `m` and `n` processes. */
  predicate Scheduled(s: State, how: How, t: State, m: int, n: nat, has: seq<bool>) {
    && Shaped(s) && |has| == |s.jobs|
    && match how
       case Reused(i) => First(s.idle, Same(m, n), i) && ReusedIn(s, i, t)
       case _ => First(s.idle, Same(m, n), |s.idle|) && Fresh(s, how, t, m, has)
  }

  /** One pass of omrpc_allocate_rpc_on_host; visits do not matter. */
  predicate AllocatedOn(s: State, how: How, t: State, h: nat, m: int, has: bool) {
    && Shaped(s) && h < |s.jobs|
    && match how
       case Reused(_) => false
       case NoHost => !has && t == s
       case Started(_) =>
         && has && s.jobs[h] < s.limits[h]
         && t == s.(jobs := s.jobs[h := s.jobs[h] + 1], busy := s.busy + [Exe(h, m, 0)])
       case Replaced(_, i) =>
         && has && s.jobs[h] >= s.limits[h] && i < |s.idle| && First(s.idle, OnHost(h), i)
         && t == s.(idle := Without(s.idle, i), busy := s.busy + [Exe(h, m, 0)])
       case NoVictim => has && s.jobs[h] >= s.limits[h] && First(s.idle, OnHost(h), |s.idle|) && t == s
  }

  /** The operations of client threads. */
  datatype Op =
    | Schedule(m: int, n: nat, has: seq<bool>, how: How)
    | Allocate(h: nat, m: int, hasIt: bool, how: How)
    | SetSize(i: nat, n: nat)
    | GiveBack(i: nat)
    | Destroy(i: nat)

  predicate Next(s: State, op: Op, t: State) {
    match op
    case Schedule(m, n, has, how) => Scheduled(s, how, t, m, n, has)
    case Allocate(h, m, has, how) => AllocatedOn(s, how, t, h, m, has)
    case SetSize(i, n) => i < |s.busy| && t == s.(busy := s.busy[i := s.busy[i].(nprocs := n)])
    case GiveBack(i) => i < |s.busy| && t == s.(idle := s.idle + [s.busy[i]], busy := Without(s.busy, i))
    case Destroy(i) =>
      && i < |s.busy| && 0 <= s.busy[i].host < |s.jobs|
      && t == s.(jobs := s.jobs[s.busy[i].host := s.jobs[s.busy[i].host] - 1], busy := Without(s.busy, i))
  }

  /** The state decides how a pass ends, and with what state. */
  lemma PassIsDetermined(s: State, how: How, t: State, how': How, t': State, m: int, n: nat, has: seq<bool>)
    requires Scheduled(s, how, t, m, n, has) && Scheduled(s, how', t', m, n, has)
    ensures how == how' && t == t'
  {
    FirstIsUnique(s.idle, Same(m, n), if how.Reused? then how.i else |s.idle|,
                  if how'.Reused? then how'.i else |s.idle|);
    if !how.Reused? {
      FreshIsDetermined(s, how, t, how', t', m, has);
    }
  }

  lemma FirstIsUnique(es: seq<Exe>, want: Want, i: nat, j: nat)
    requires First(es, want, i) && First(es, want, j)
    ensures i == j
  {
  }

  lemma FreshIsDetermined(s: State, how: How, t: State, how': How, t': State, m: int, has: seq<bool>)
    requires Shaped(s) && |has| == |s.jobs|
    requires Fresh(s, how, t, m, has) && Fresh(s, how', t', m, has)
    ensures how == how' && t == t'
  {
    var n := |has|;
    assert how.Started? ==> CanRun(has, s.jobs, s.limits, Visited(s.last, how.at, n));
    assert how'.Started? ==> CanRun(has, s.jobs, s.limits, Visited(s.last, how'.at, n));
    if how.Started? && how'.Started? {
      assert how.at == how'.at;
    } else if how.Replaced? && how'.Replaced? {
      assert how.at == how'.at;
      FirstIsUnique(s.idle, Other(Visited(s.last, how.at, n), m), how.i, how'.i);
    }
  }

  // ----- The sum over all hosts -----

  /** Every operation keeps the counters within their limits and their sum exact. */
  lemma SoundKept(s: State, op: Op, t: State)
    requires Sound(s) && Next(s, op, t)
    ensures Sound(t) && |t.jobs| == |s.jobs| && t.limits == s.limits
  {
    match op
    case Schedule(m, _, has, how) => ScheduledSound(s, how, t, m, op.n, has);
    case Allocate(h, _, _, Started(_)) => SumUpdate(s.jobs, h, s.jobs[h] + 1);
    case Destroy(i) => SumUpdate(s.jobs, s.busy[i].host, s.jobs[s.busy[i].host] - 1);
    case _ =>
  }

  lemma ScheduledSound(s: State, how: How, t: State, m: int, n: nat, has: seq<bool>)
    requires Sound(s) && Scheduled(s, how, t, m, n, has)
    ensures Sound(t) && |t.jobs| == |s.jobs| && t.limits == s.limits
  {
    match how
    case Started(at) =>
      var h := Visited(s.last, at, |has|);
      SumUpdate(s.jobs, h, s.jobs[h] + 1);
    case _ =>
  }

  // ----- The account of each host -----

  /** The executables that live on host `h`. */
  function On(es: seq<Exe>, h: int): nat {
    if es == [] then 0 else (if es[0].host == h then 1 else 0) + On(es[1..], h)
  }

  lemma {:induction false} OnAppend(a: seq<Exe>, b: seq<Exe>, h: int)
    ensures On(a + b, h) == On(a, h) + On(b, h)
  {
    if a == [] {
      assert a + b == b;
    } else {
      assert (a + b)[1..] == a[1..] + b;
      OnAppend(a[1..], b, h);
    }
  }

  lemma OnOne(es: seq<Exe>, e: Exe, h: int)
    ensures On(es + [e], h) == On(es, h) + if e.host == h then 1 else 0
  {
    OnAppend(es, [e], h);
  }

  lemma OnWithout(es: seq<Exe>, i: nat, h: int)
    requires i < |es|
    ensures On(Without(es, i), h) == On(es, h) - if es[i].host == h then 1 else 0
  {
    OnAppend(es[..i], es[i + 1..], h);
    OnAppend(es[..i], es[i..], h);
    assert es == es[..i] + es[i..] && es[i..][1..] == es[i + 1..];
  }

  lemma {:induction false} OnResized(es: seq<Exe>, i: nat, n: nat, h: int)
    requires i < |es|
    ensures On(es[i := es[i].(nprocs := n)], h) == On(es, h)
  {
    var r := es[i := es[i].(nprocs := n)];
    if i == 0 {
      assert r[1..] == es[1..];
    } else {
      assert r[1..] == es[1..][i - 1 := es[i].(nprocs := n)];
      OnResized(es[1..], i - 1, n, h);
    }
  }

  function Live(s: State, h: int): nat {
    On(s.idle, h) + On(s.busy, h)
  }

  /** Every counter counts the executables that live on its host. */
  predicate Accounted(s: State) {
    forall h | 0 <= h < |s.jobs| :: s.jobs[h] == Live(s, h)
  }

  /** What an operation does to the executables of host `h`. */
  lemma LiveAfter(s: State, op: Op, t: State, h: int)
    requires Shaped(s) && Next(s, op, t)
    ensures op.Schedule? && op.how.Replaced? ==>
              Live(t, h) == Live(s, h) - (if h == Visited(s.last, op.how.at, |op.has|) then 1 else 0)
                            + if h == s.last then 1 else 0
    ensures 0 <= h < |s.jobs| && !(op.Schedule? && op.how.Replaced?) ==>
              |t.jobs| == |s.jobs| && t.jobs[h] - s.jobs[h] == Live(t, h) - Live(s, h)
  {
    match op
    case Schedule(m, _, has, Reused(i)) => OnWithout(s.idle, i, h); OnOne(s.busy, s.idle[i], h);
    case Schedule(m, _, has, Started(at)) => OnOne(s.busy, Exe(Visited(s.last, at, |has|), m, 0), h);
    case Schedule(m, _, has, Replaced(at, i)) => OnWithout(s.idle, i, h); OnOne(s.busy, Exe(s.last, m, 0), h);
    case Schedule(_, _, _, _) =>
    case Allocate(g, m, _, Started(_)) => OnOne(s.busy, Exe(g, m, 0), h);
    case Allocate(g, m, _, Replaced(_, i)) => OnWithout(s.idle, i, h); OnOne(s.busy, Exe(g, m, 0), h);
    case Allocate(_, _, _, _) =>
    case SetSize(i, n) => OnResized(s.busy, i, n, h);
    case GiveBack(i) => OnWithout(s.busy, i, h); OnOne(s.idle, s.busy[i], h);
    case Destroy(i) => OnWithout(s.busy, i, h);
  }

  /** A replacement on another host than the victim's. */
  predicate Strays(s: State, op: Op) {
    op.Schedule? && op.how.Replaced? && !OnlyOn(op.has, s.last)
  }

  /** Main result: an operation keeps the account of every host if and only if it is not a
      replacement for a module that some host other than the last used has. */
  lemma AccountKept(s: State, op: Op, t: State)
    requires Shaped(s) && Accounted(s) && Next(s, op, t)
    ensures Accounted(t) <==> !Strays(s, op)
  {
    if op.Schedule? && op.how.Replaced? {
      var c := Visited(s.last, op.how.at, |op.has|);
      CandidateIsLast(op.has, s.last, op.how.at);
      forall h | 0 <= h < |s.jobs| ensures t.jobs[h] == Live(t, h) <==> (h == c) == (h == s.last) {
        LiveAfter(s, op, t, h);
      }
      if c != s.last {
        assert !(t.jobs[c] == Live(t, c));
      }
    } else {
      forall h | 0 <= h < |s.jobs| ensures t.jobs[h] == Live(t, h) {
        LiveAfter(s, op, t, h);
      }
    }
  }

  /** With exact accounts no host runs more executables than its limit. */
  lemma WithinLimits(s: State, h: nat)
    requires Sound(s) && Accounted(s) && h < |s.jobs|
    ensures Live(s, h) <= s.limits[h]
  {
  }

  datatype Step = Step(op: Op, after: State)

  predicate Run(s: State, steps: seq<Step>)
    decreases |steps|
  {
    steps == [] || (Next(s, steps[0].op, steps[0].after) && Run(steps[0].after, steps[1..]))
  }

  function Final(s: State, steps: seq<Step>): State
    decreases |steps|
  {
    if steps == [] then s else Final(steps[0].after, steps[1..])
  }

  predicate NoneStrays(s: State, steps: seq<Step>)
    decreases |steps|
  {
    steps == [] || (!Strays(s, steps[0].op) && NoneStrays(steps[0].after, steps[1..]))
  }

  /** Over any run the counters stay within their limits and their sum exact. */
  lemma {:induction false} RunSound(s: State, steps: seq<Step>)
    requires Sound(s) && Run(s, steps)
    ensures Sound(Final(s, steps))
    decreases |steps|
  {
    if steps != [] {
      SoundKept(s, steps[0].op, steps[0].after);
      RunSound(steps[0].after, steps[1..]);
    }
  }

  /** Over a run of operations none of which strays, every host runs as many executables as its
      counter says, and no more than its limit. */
  lemma {:induction false} RunKeeps(s: State, steps: seq<Step>)
    requires Sound(s) && Accounted(s) && Run(s, steps) && NoneStrays(s, steps)
    ensures var t := Final(s, steps);
            Sound(t) && Accounted(t) && forall h | 0 <= h < |t.jobs| :: Live(t, h) <= t.limits[h]
    decreases |steps|
  {
    if steps == [] {
      forall h: nat | h < |s.jobs| {
        WithinLimits(s, h);
      }
    } else {
      SoundKept(s, steps[0].op, steps[0].after);
      AccountKept(s, steps[0].op, steps[0].after);
      RunKeeps(steps[0].after, steps[1..]);
    }
  }

  /** With one host nothing strays: its account is exact in every run. */
  lemma {:induction false} OneHostRun(s: State, steps: seq<Step>)
    requires Sound(s) && Accounted(s) && |s.jobs| == 1 && Run(s, steps)
    ensures NoneStrays(s, steps)
    decreases |steps|
  {
    if steps != [] {
      SoundKept(s, steps[0].op, steps[0].after);
      AccountKept(s, steps[0].op, steps[0].after);
      OneHostRun(steps[0].after, steps[1..]);
    }
  }

  // ----- A pass in plain terms -----

  /** No idle executable is of module `m` with `n` processes, among the first `i`. */
  predicate NoneIdle(s: State, m: int, n: nat, i: nat)
    requires i <= |s.idle|
  {
    forall k | 0 <= k < i :: s.idle[k].module_ != m || s.idle[k].nprocs != n
  }

  /** Host `h` has the module and a free slot. */
  predicate Open(s: State, has: seq<bool>, h: nat)
    requires |has| == |s.jobs| == |s.limits| && h < |has|
  {
    has[h] && s.jobs[h] < s.limits[h]
  }

  /** The first executable that can be ended on host `h` for module `m` is the `i`-th. */
  predicate Victim(s: State, h: nat, m: int, i: nat)
    requires i <= |s.idle|
  {
    && (forall k | 0 <= k < i :: s.idle[k].host != h || s.idle[k].module_ == m)
    && (i < |s.idle| ==> s.idle[i].host == h && s.idle[i].module_ != m)
  }

  /** The `i`-th host in the order last + 1, last + 2, ... modulo the number of hosts. */
  function HostAfter(last: nat, i: nat, n: nat): (h: nat)
    requires n > 0
    ensures h < n
  {
    (last + 1 + i) % n
  }

  predicate PlainStart(s: State, k: nat, t: State, m: int, has: seq<bool>)
    requires |has| == |s.jobs| == |s.limits| > s.last
  {
    && k < |has| && (forall j: nat | j < k :: !Open(s, has, HostAfter(s.last, j, |has|)))
    && var h := HostAfter(s.last, k, |has|);
       && Open(s, has, h)
       && t == s.(jobs := s.jobs[h := s.jobs[h] + 1], last := h, busy := s.busy + [Exe(h, m, 0)])
  }

  /** The `k`-th host of the order is the first that has the module. */
  predicate FirstWith(s: State, has: seq<bool>, k: nat)
    requires |has| == |s.jobs| == |s.limits| > s.last
  {
    k < |has| && has[HostAfter(s.last, k, |has|)] && forall j: nat | j < k :: !has[HostAfter(s.last, j, |has|)]
  }

  predicate PlainReplace(s: State, k: nat, i: nat, t: State, m: int, has: seq<bool>)
    requires |has| == |s.jobs| == |s.limits| > s.last
  {
    && FirstWith(s, has, k)
    && var h := HostAfter(s.last, k, |has|);
       && i < |s.idle| && Victim(s, h, m, i)
       && t == s.(last := h, idle := s.idle[..i] + s.idle[i + 1..], busy := s.busy + [Exe(s.last, m, 0)])
  }

  predicate NoneIsOpen(s: State, has: seq<bool>)
    requires |has| == |s.jobs| == |s.limits| > s.last
  {
    forall h | 0 <= h < |has| :: !Open(s, has, h)
  }

  predicate Plain(s: State, how: How, t: State, m: int, n: nat, has: seq<bool>)
    requires |has| == |s.jobs| == |s.limits| > s.last
  {
    match how
    case Reused(i) =>
      && i < |s.idle| && s.idle[i].module_ == m && s.idle[i].nprocs == n && NoneIdle(s, m, n, i)
      && t == s.(idle := s.idle[..i] + s.idle[i + 1..], busy := s.busy + [s.idle[i]])
    case Started(k) => NoneIdle(s, m, n, |s.idle|) && PlainStart(s, k, t, m, has)
    case Replaced(k, i) => NoneIdle(s, m, n, |s.idle|) && NoneIsOpen(s, has) && PlainReplace(s, k, i, t, m, has)
    case NoHost => NoneIdle(s, m, n, |s.idle|) && (forall h | 0 <= h < |has| :: !has[h]) && t == s
    case NoVictim =>
      && NoneIdle(s, m, n, |s.idle|) && NoneIsOpen(s, has) && t == s
      && exists k: nat | k < |has| :: FirstWith(s, has, k) && Victim(s, HostAfter(s.last, k, |has|), m, |s.idle|)
  }

  lemma VisitedIsAfter(last: nat, n: nat)
    requires last < n
    ensures forall j: nat | j < n :: Visited(last, j, n) == HostAfter(last, j, n)
  {
    forall j: nat | j < n ensures Visited(last, j, n) == HostAfter(last, j, n) {
      Wraps(last + 1 + j, n);
    }
  }

  lemma StartIsPlain(s: State, k: nat, t: State, m: int, has: seq<bool>)
    requires |has| == |s.jobs| == |s.limits| > s.last && StartedIn(s, k, t, m, has)
    ensures PlainStart(s, k, t, m, has)
  {
    VisitedIsAfter(s.last, |has|);
    forall j: nat | j < k ensures !Open(s, has, HostAfter(s.last, j, |has|)) {
      assert !CanRun(has, s.jobs, s.limits, Visited(s.last, j, |has|));
    }
  }

  lemma FirstIsPlain(s: State, has: seq<bool>, k: nat)
    requires |has| == |s.jobs| == |s.limits| > s.last
    requires k < |has| && NoneHas(has, s.last, k) && has[Visited(s.last, k, |has|)]
    ensures FirstWith(s, has, k) && Visited(s.last, k, |has|) == HostAfter(s.last, k, |has|)
  {
    VisitedIsAfter(s.last, |has|);
    forall j: nat | j < k ensures !has[HostAfter(s.last, j, |has|)] {
      assert !has[Visited(s.last, j, |has|)];
    }
  }

  /** What a pass does in each case, told without the words of the search: the first idle executable of
      the module and size; or else the first host, in the order last + 1, last + 2, ... modulo their
      number, that has the module and a free slot; or else the first that has the module, and the
      first idle executable of another module there. */
  lemma PassInPlainTerms(s: State, how: How, t: State, m: int, n: nat, has: seq<bool>)
    requires Scheduled(s, how, t, m, n, has)
    ensures |has| == |s.jobs| == |s.limits| > s.last && Plain(s, how, t, m, n, has)
  {
    match how
    case Reused(i) =>
    case Started(k) => StartIsPlain(s, k, t, m, has);
    case Replaced(k, i) =>
      NoneOpen(s, has);
      FirstIsPlain(s, has, k);
    case NoHost => AllVisited(has, s.jobs, s.limits, s.last);
    case NoVictim =>
      NoneOpen(s, has);
      var k: nat :| k < |has| && NoneHas(has, s.last, k) && has[Visited(s.last, k, |has|)]
                    && First(s.idle, Other(Visited(s.last, k, |has|), m), |s.idle|);
      FirstIsPlain(s, has, k);
      assert Victim(s, HostAfter(s.last, k, |has|), m, |s.idle|);
  }

  /** The same of a pass for one host. */
  lemma AllocatedInPlainTerms(s: State, how: How, t: State, h: nat, m: int, has: bool)
    requires AllocatedOn(s, how, t, h, m, has)
    ensures h < |s.jobs| == |s.limits| &&
            match how
            case Reused(_) => false
            case NoHost => !has && t == s
            case Started(_) =>
              && has && s.jobs[h] < s.limits[h]
              && t == s.(jobs := s.jobs[h := s.jobs[h] + 1], busy := s.busy + [Exe(h, m, 0)])
            case Replaced(_, i) =>
              && has && s.jobs[h] >= s.limits[h]
              && i < |s.idle| && s.idle[i].host == h && (forall k | 0 <= k < i :: s.idle[k].host != h)
              && t == s.(idle := s.idle[..i] + s.idle[i + 1..], busy := s.busy + [Exe(h, m, 0)])
            case NoVictim =>
              has && s.jobs[h] >= s.limits[h] && (forall k | 0 <= k < |s.idle| :: s.idle[k].host != h) && t == s
  {
  }

  lemma NoneOpen(s: State, has: seq<bool>)
    requires |has| == |s.jobs| == |s.limits| > s.last && NoneCanRun(has, s.jobs, s.limits, s.last, |has|)
    ensures forall h | 0 <= h < |has| :: !Open(s, has, h)
  {
    AllVisited(has, s.jobs, s.limits, s.last);
    forall h | 0 <= h < |has| ensures !Open(s, has, h) {
      assert !CanRun(has, s.jobs, s.limits, h);
    }
  }

  /** Every host has the module. */
  predicate Everywhere(has: seq<bool>) {
    forall h | 0 <= h < |has| :: has[h]
  }

  /** The steps are calls that every host can run, each followed or not by the setting of a size. */
  predicate Calls(steps: seq<Step>) {
    forall k | 0 <= k < |steps| ::
      steps[k].op.SetSize? || (steps[k].op.Schedule? && Everywhere(steps[k].op.has))
  }

  /** The hosts on which the calls of a run start an executable. */
  function Placed(steps: seq<Step>): seq<nat> {
    if steps == [] then []
    else (if steps[0].op.Schedule? then [steps[0].after.last] else []) + Placed(steps[1..])
  }

  lemma NextPlace(last: nat, i: nat, n: nat)
    requires n > 0
    ensures ((last + 1) % n + 1 + i) % n == (last + 1 + (i + 1)) % n
  {
    var q, r := (last + 1) / n, (last + 1) % n;
    assert last + 1 == q * n + r;
    var x := r + 1 + i;
    assert last + 1 + (i + 1) == q * n + x;
    SameRest(x, q, n);
  }

  lemma SameRest(x: nat, q: nat, n: nat)
    requires n > 0
    ensures (q * n + x) % n == x % n
  {
    var e, r := x / n, x % n;
    assert x == e * n + r;
    assert q * n + x == (q + e) * n + r;
    RestIs(q * n + x, n, q + e, r);
  }

  lemma RestIs(y: int, n: int, q: int, r: int)
    requires n > 0 && y == q * n + r && 0 <= r < n
    ensures y % n == r
  {
    var e := y / n;
    assert y == e * n + y % n;
    if e < q {
      MoreTimes(e + 1, q, n);
    } else if e > q {
      MoreTimes(q + 1, e, n);
    }
  }

  lemma MoreTimes(a: int, b: int, n: int)
    requires a <= b && n > 0
    ensures a * n <= b * n
  {
  }

  /** The hosts follow `last` in the circle. */
  predicate Follow(places: seq<nat>, last: nat, n: nat)
    requires n > 0
  {
    forall i | 0 <= i < |places| :: places[i] == (last + 1 + i) % n
  }

  lemma FollowNext(places: seq<nat>, last: nat, h: nat, n: nat)
    requires n > 0 && h == (last + 1) % n && Follow(places, h, n)
    ensures Follow([h] + places, last, n)
  {
    forall i | 0 <= i < |places| + 1 ensures ([h] + places)[i] == (last + 1 + i) % n {
      if i > 0 {
        NextPlace(last, i - 1, n);
      }
    }
  }

  /** Every host has room for `k` more. */
  predicate Room(s: State, k: nat) {
    |s.jobs| == |s.limits| && forall h | 0 <= h < |s.jobs| :: s.jobs[h] + k <= s.limits[h]
  }

  lemma TailCalls(steps: seq<Step>)
    requires Calls(steps) && steps != []
    ensures Calls(steps[1..]) && (steps[0].op.SetSize? || (steps[0].op.Schedule? && Everywhere(steps[0].op.has)))
  {
  }

  /** Calls that every host can run land on consecutive hosts, in a circle. */
  lemma {:induction false} RoundRobin(s: State, steps: seq<Step>)
    requires Shaped(s) && s.idle == [] && Run(s, steps) && Calls(steps) && Room(s, |steps|)
    ensures Follow(Placed(steps), s.last, |s.jobs|)
    decreases |steps|
  {
    if steps != [] {
      TailCalls(steps);
      var op, t := steps[0].op, steps[0].after;
      if op.SetSize? {
        RoundRobin(t, steps[1..]);
      } else {
        CallGoesNext(s, op, t, |steps|);
        RoundRobin(t, steps[1..]);
        FollowNext(Placed(steps[1..]), s.last, t.last, |s.jobs|);
      }
    }
  }

  lemma CallGoesNext(s: State, op: Op, t: State, k: nat)
    requires Shaped(s) && s.idle == [] && op.Schedule? && Everywhere(op.has) && Next(s, op, t) && k > 0 && Room(s, k)
    ensures t.last == (s.last + 1) % |s.jobs| && |t.jobs| == |s.jobs| && t.idle == [] && Shaped(t) && Room(t, k - 1)
  {
    var n := |s.jobs|;
    PassInPlainTerms(s, op.how, t, op.m, op.n, op.has);
    var h := HostAfter(s.last, 0, n);
    assert Open(s, op.has, h);
  }

  // ----- A run that strays -----

  const BOTH: seq<bool> := [true, true]
  const START: State := State([0, 0], [1, 1], 1, [], [])
  const FULL: State := State([1, 1], [1, 1], 1, [Exe(0, 1, 1)], [Exe(1, 2, 1)])
  const DOUBLE: State := State([1, 1], [1, 1], 0, [], [Exe(1, 2, 1), Exe(1, 3, 0)])

  /** Two hosts of one slot, both taken; host 0 has the only idle executable. */
  lemma FullIsReached() returns (steps: seq<Step>)
    ensures Run(START, steps) && NoneStrays(START, steps) && Final(START, steps) == FULL
  {
    var s1 := State([1, 0], [1, 1], 0, [], [Exe(0, 1, 0)]);
    var s2 := s1.(busy := [Exe(0, 1, 1)]);
    var s3 := State([1, 1], [1, 1], 1, [], [Exe(0, 1, 1), Exe(1, 2, 0)]);
    var s4 := s3.(busy := [Exe(0, 1, 1), Exe(1, 2, 1)]);
    FirstCalls(s1, s3);
    assert Next(s1, SetSize(0, 1), s2);
    assert Next(s3, SetSize(1, 1), s4);
    assert Without(s4.busy, 0) == FULL.busy;
    assert Next(s4, GiveBack(0), FULL);
    steps := Before(s4, GiveBack(0), FULL, []);
    steps := Before(s3, SetSize(1, 1), s4, steps);
    steps := Before(s2, Schedule(2, 1, [false, true], Started(0)), s3, steps);
    steps := Before(s1, SetSize(0, 1), s2, steps);
    steps := Before(START, Schedule(1, 1, [true, false], Started(0)), s1, steps);
  }

  lemma Before(s: State, op: Op, t: State, steps: seq<Step>) returns (r: seq<Step>)
    requires Next(s, op, t) && !Strays(s, op) && Run(t, steps) && NoneStrays(t, steps)
    ensures Run(s, r) && NoneStrays(s, r) && Final(s, r) == Final(t, steps)
  {
    r := [Step(op, t)] + steps;
    assert r[1..] == steps;
  }

  lemma FirstCalls(s1: State, s3: State)
    requires s1 == State([1, 0], [1, 1], 0, [], [Exe(0, 1, 0)])
    requires s3 == State([1, 1], [1, 1], 1, [], [Exe(0, 1, 1), Exe(1, 2, 0)])
    ensures Next(START, Schedule(1, 1, [true, false], Started(0)), s1)
    ensures Next(s1.(busy := [Exe(0, 1, 1)]), Schedule(2, 1, [false, true], Started(0)), s3)
  {
    assert START.jobs[0 := 1] == s1.jobs && [] + [Exe(0, 1, 0)] == s1.busy;
    assert s1.jobs[1 := 1] == s3.jobs && [Exe(0, 1, 1)] + [Exe(1, 2, 0)] == s3.busy;
  }

  lemma Stray(n: nat)
    ensures Scheduled(FULL, Replaced(0, 0), DOUBLE, 3, n, BOTH)
  {
    assert Without(FULL.idle, 0) == DOUBLE.idle && FULL.busy + [Exe(1, 3, 0)] == DOUBLE.busy;
  }

  lemma LiveOfTwo(s: State, a: Exe, b: Exe, h: int)
    requires s.idle == [] && s.busy == [a, b]
    ensures Live(s, h) == (if a.host == h then 1 else 0) + if b.host == h then 1 else 0
  {
    var one: seq<Exe> := [];
    assert s.busy == one + [a] + [b];
    OnOne(one, a, h);
    OnOne(one + [a], b, h);
  }

  /** A call of another module ends that idle executable, and the new one starts on host 1, which
      then runs two. */
  lemma TwoOnOneHost(how: How, t: State, n: nat)
    requires Scheduled(FULL, how, t, 3, n, BOTH)
    ensures t == DOUBLE && Live(t, 0) == 0 && Live(t, 1) == 2 && t.limits[1] == 1
  {
    Stray(n);
    PassIsDetermined(FULL, Replaced(0, 0), DOUBLE, how, t, 3, n, BOTH);
    LiveOfTwo(t, Exe(1, 2, 1), Exe(1, 3, 0), 0);
    LiveOfTwo(t, Exe(1, 2, 1), Exe(1, 3, 0), 1);
  }
}
