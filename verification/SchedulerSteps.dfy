/** The scheduler under threads: a pass takes the scheduler lock and the lock of the queue again and
again, so the passes of several threads interleave between these steps. */
module SchedulerSteps {
  import opened RpcPool
  import opened Accounts

  /** Where a thread is.  `at` is the host on which it will run an executable, `home` the host whose
      slot that executable takes: the two differ when it replaces an executable of another host. */
  datatype Thread =
    | Out
    | Seeking(m: int, n: nat, has: seq<bool>)                                      // before omrpc_get_idle_rpc
    | Reading(m: int, has: seq<bool>)                                              // before omrpc_get_last_sched_host
    | Scanning(m: int, has: seq<bool>, last: nat, i: nat, candidate: int)          // before the visit of a host
    | Placing(m: int, at: nat)                                                     // slot taken, before set_last
    | Asking(m: int, at: nat)                                                      // in omrpc_allocate_rpc_on_host
    | Hunting(m: int, want: Want, home: nat, at: nat, mark: bool)             // before omrpc_get_victim_idle_rpc
    | Killing(m: int, victim: Exe, home: nat, at: nat, mark: bool)            // victim out of the queue
    | Marking(m: int, home: nat, at: nat)                                     // before omrpc_set_last_sched_host
    | Starting(m: int, at: nat, home: nat)                                         // before omrpc_exec_module
    | Ending(e: Exe)                                                               // slot released, before omrpc_kill_rpc
    | Failed                                                                       // no host has the module
  {
    /** The host whose slot the thread holds for an executable that is not there yet or any more. */
    function Home(): int {
      match this
      case Placing(_, at) => at
      case Killing(_, _, home, _, _) => home
      case Marking(_, home, _) => home
      case Starting(_, _, home) => home
      case _ => -1
    }
  }

  datatype Sys = Sys(jobs: seq<int>, limits: seq<int>, last: nat, idle: seq<Exe>, busy: seq<Exe>, threads: seq<Thread>)

  /** The first idle executable that fits, or the length of the queue. */
  function Search(idle: seq<Exe>, want: Want): (i: nat)
    ensures First(idle, want, i)
  {
    if idle == [] || Fits(idle[0], want) then 0 else 1 + Search(idle[1..], want)
  }

  // ----- The steps -----

  function Put(s: Sys, t: nat, th: Thread): Sys
    requires t < |s.threads|
  {
    s.(threads := s.threads[t := th])
  }

  /** One visit of the loop over the hosts. */
  function Visit(s: Sys, t: nat): Sys
    requires t < |s.threads| && s.threads[t].Scanning? && s.threads[t].last < |s.jobs| == |s.limits| == |s.threads[t].has|
  {
    var th := s.threads[t];
    if th.i >= |s.jobs| then
      Put(s, t, if th.candidate < 0 then Failed
                else Hunting(th.m, Other(th.candidate, th.m), th.candidate, th.last, true))
    else
      var h := Visited(th.last, th.i, |s.jobs|);
      if !th.has[h] then Put(s, t, th.(i := th.i + 1))
      else if s.jobs[h] < s.limits[h] then Put(s.(jobs := s.jobs[h := s.jobs[h] + 1]), t, Placing(th.m, h))
      else Put(s, t, th.(i := th.i + 1, candidate := if th.candidate < 0 then h else th.candidate))
  }

  /** The next step of thread `t`. */
  function Advance(s: Sys, t: nat): Sys
    requires Shape(s) && t < |s.threads|
  {
    match s.threads[t]
    case Seeking(m, n, has) =>
      var i := Search(s.idle, Same(m, n));
      if i == |s.idle| then Put(s, t, Reading(m, has))
      else Put(s.(idle := Without(s.idle, i), busy := s.busy + [s.idle[i]]), t, Out)
    case Reading(m, has) => Put(s, t, Scanning(m, has, s.last, 0, -1))
    case Scanning(_, _, _, _, _) => Visit(s, t)
    case Placing(m, at) => Put(s.(last := at), t, Starting(m, at, at))
    case Asking(m, at) =>
      if s.jobs[at] < s.limits[at] then Put(s.(jobs := s.jobs[at := s.jobs[at] + 1]), t, Starting(m, at, at))
      else Put(s, t, Hunting(m, OnHost(at), at, at, false))
    case Hunting(m, want, home, at, mark) =>
      var i := Search(s.idle, want);
      if i == |s.idle| then Put(s, t, Out)
      else Put(s.(idle := Without(s.idle, i)), t, Killing(m, s.idle[i], home, at, mark))
    case Killing(m, victim, home, at, mark) =>
      Put(s, t, if mark then Marking(m, home, at) else Starting(m, at, home))
    case Marking(m, home, at) => Put(s.(last := home), t, Starting(m, at, home))
    case Starting(m, at, _) => Put(s.(busy := s.busy + [Exe(at, m, 0)]), t, Out)
    case Ending(_) => Put(s, t, Out)
    case _ => s
  }

  /** What happens next: a thread begins a pass or takes its next step, or does something with an
      executable in use. */
  datatype Act =
    | Begin(t: nat, m: int, n: nat, has: seq<bool>)
    | BeginOn(t: nat, m: int, h: nat)
    | Go(t: nat)
    | Resize(i: nat, n: nat)
    | GiveBack(i: nat)
    | Release(t: nat, i: nat)

  predicate Enabled(s: Sys, a: Act) {
    match a
    case Begin(t, _, _, has) => t < |s.threads| && s.threads[t].Out? && |has| == |s.jobs|
    case BeginOn(t, _, h) => t < |s.threads| && s.threads[t].Out? && h < |s.jobs|
    case Go(t) => t < |s.threads|
    case Resize(i, _) => i < |s.busy|
    case GiveBack(i) => i < |s.busy|
    case Release(t, i) => t < |s.threads| && s.threads[t].Out? && i < |s.busy| && 0 <= s.busy[i].host < |s.jobs|
  }

  function Step(s: Sys, a: Act): Sys
    requires Shape(s) && Enabled(s, a)
  {
    match a
    case Begin(t, m, n, has) => Put(s, t, Seeking(m, n, has))
    case BeginOn(t, m, h) => Put(s, t, Asking(m, h))
    case Go(t) => Advance(s, t)
    case Resize(i, n) => s.(busy := s.busy[i := s.busy[i].(nprocs := n)])
    case GiveBack(i) => s.(idle := s.idle + [s.busy[i]], busy := Without(s.busy, i))
    case Release(t, i) =>
      var e := s.busy[i];
      Put(s.(jobs := s.jobs[e.host := s.jobs[e.host] - 1], busy := Without(s.busy, i)), t, Ending(e))
  }

  // ----- What every step keeps -----

  /** What a thread remembers is about hosts that exist. */
  predicate Sane(th: Thread, n: nat) {
    match th
    case Seeking(_, _, has) => |has| == n
    case Reading(_, has) => |has| == n
    case Scanning(_, has, last, i, candidate) =>
      && |has| == n && last < n && i <= n
      && (candidate < 0 ==> NoneHas(has, last, i))
      && (candidate >= 0 ==>
            exists k: nat | k < i :: candidate == Visited(last, k, n) && has[candidate] && NoneHas(has, last, k))
    case Placing(_, at) => at < n
    case Asking(_, at) => at < n
    case Hunting(_, want, home, at, mark) =>
      home < n && at < n && (want.Other? || want.OnHost?) && want.host == home && (!mark ==> at == home)
    case Killing(_, victim, home, at, mark) => home < n && at < n && victim.host == home && (!mark ==> at == home)
    case Marking(_, home, at) => home < n && at < n
    case Starting(_, at, home) => at < n && home < n
    case _ => true
  }

  predicate Shape(s: Sys) {
    && |s.jobs| == |s.limits| > s.last
    && forall t | 0 <= t < |s.threads| :: Sane(s.threads[t], |s.jobs|)
  }

  lemma SaneVisit(s: Sys, t: nat)
    requires Shape(s) && t < |s.threads| && s.threads[t].Scanning?
    ensures Sane(Visit(s, t).threads[t], |s.jobs|)
  {
    var th := s.threads[t];
    if th.i < |s.jobs| {
      var h := Visited(th.last, th.i, |s.jobs|);
      if th.has[h] && s.jobs[h] >= s.limits[h] && th.candidate < 0 {
        assert th.i < th.i + 1 && h == Visited(th.last, th.i, |s.jobs|) && th.has[h] && NoneHas(th.has, th.last, th.i);
      }
    }
  }

  /** A step of thread `t` changes this thread only. */
  predicate Local(s: Sys, t: nat, r: Sys) {
    && t < |s.threads| == |r.threads| && r.threads == s.threads[t := r.threads[t]]
    && |r.jobs| == |s.jobs| > r.last && r.limits == s.limits
  }

  lemma LocalShape(s: Sys, t: nat, r: Sys)
    requires Shape(s) && Local(s, t, r) && Sane(r.threads[t], |s.jobs|)
    ensures Shape(r)
  {
    forall k | 0 <= k < |r.threads| ensures Sane(r.threads[k], |r.jobs|) {
      assert k != t ==> r.threads[k] == s.threads[k];
    }
  }

  lemma AdvanceLocal(s: Sys, t: nat)
    requires Shape(s) && t < |s.threads|
    ensures Local(s, t, Advance(s, t)) && Sane(Advance(s, t).threads[t], |s.jobs|)
  {
    assert Sane(s.threads[t], |s.jobs|);
    assert s.threads == s.threads[t := s.threads[t]];
    match s.threads[t]
    case Scanning(_, _, _, _, _) => SaneVisit(s, t);
    case _ =>
  }

  lemma StepShape(s: Sys, a: Act)
    requires Shape(s) && Enabled(s, a)
    ensures Shape(Step(s, a)) && |Step(s, a).jobs| == |s.jobs| && Step(s, a).limits == s.limits
    ensures |Step(s, a).threads| == |s.threads|
  {
    if a.Go? {
      AdvanceLocal(s, a.t);
      LocalShape(s, a.t, Step(s, a));
    }
  }

  // ----- The accounts, with the slots that threads hold -----

  function Holds(th: Thread): nat { if th.Home() >= 0 then 1 else 0 }

  function Held(ths: seq<Thread>): nat {
    if ths == [] then 0 else Holds(ths[0]) + Held(ths[1..])
  }

  function HoldsOn(th: Thread, h: nat): nat { if th.Home() == h then 1 else 0 }

  function HeldOn(ths: seq<Thread>, h: nat): nat {
    if ths == [] then 0 else HoldsOn(ths[0], h) + HeldOn(ths[1..], h)
  }

  lemma {:induction false} HeldUpdate(ths: seq<Thread>, t: nat, th: Thread, h: nat)
    requires t < |ths|
    ensures Held(ths[t := th]) == Held(ths) - Holds(ths[t]) + Holds(th)
    ensures HeldOn(ths[t := th], h) == HeldOn(ths, h) - HoldsOn(ths[t], h) + HoldsOn(th, h)
  {
    if t == 0 {
      assert ths[0 := th][1..] == ths[1..];
    } else {
      assert ths[t := th][1..] == ths[1..][t - 1 := th];
      HeldUpdate(ths[1..], t - 1, th, h);
    }
  }

  /** No counter exceeds its limit, and in all they count the executables and the slots held. */
  predicate AllSound(s: Sys) {
    && Shape(s)
    && (forall h | 0 <= h < |s.jobs| :: s.jobs[h] <= s.limits[h])
    && Sum(s.jobs) == |s.idle| + |s.busy| + Held(s.threads)
  }

  predicate WithinLimits(s: Sys) {
    |s.jobs| == |s.limits| && forall h | 0 <= h < |s.jobs| :: s.jobs[h] <= s.limits[h]
  }

  /** A step changes one thread, and the sum of the counters by what it changes of the executables and
      of the slot that this thread holds. */
  predicate Balanced(s: Sys, t: nat, r: Sys) {
    && t < |s.threads| == |r.threads| && r.threads == s.threads[t := r.threads[t]]
    && (WithinLimits(s) ==> WithinLimits(r))
    && Sum(r.jobs) - Sum(s.jobs) ==
       |r.idle| + |r.busy| + Holds(r.threads[t]) - |s.idle| - |s.busy| - Holds(s.threads[t])
  }

  lemma BalancedSound(s: Sys, t: nat, r: Sys)
    requires AllSound(s) && Balanced(s, t, r) && Shape(r)
    ensures AllSound(r)
  {
    HeldUpdate(s.threads, t, r.threads[t], 0);
  }

  lemma VisitBalanced(s: Sys, t: nat)
    requires Shape(s) && t < |s.threads| && s.threads[t].Scanning?
    ensures Balanced(s, t, Visit(s, t))
  {
    var th := s.threads[t];
    if th.i < |s.jobs| {
      var h := Visited(th.last, th.i, |s.jobs|);
      SumUpdate(s.jobs, h, s.jobs[h] + 1);
    }
  }

  lemma AdvanceBalanced(s: Sys, t: nat)
    requires Shape(s) && t < |s.threads|
    ensures Balanced(s, t, Advance(s, t))
  {
    match s.threads[t]
    case Scanning(_, _, _, _, _) => VisitBalanced(s, t);
    case Asking(_, at) => SumUpdate(s.jobs, at, s.jobs[at] + 1);
    case _ =>
      assert s.threads == s.threads[t := s.threads[t]];
  }

  /** Main result: every step of every thread keeps that, however the steps interleave. */
  lemma StepSound(s: Sys, a: Act)
    requires AllSound(s) && Enabled(s, a)
    ensures AllSound(Step(s, a))
  {
    StepShape(s, a);
    match a
    case Go(t) => AdvanceBalanced(s, t); BalancedSound(s, t, Step(s, a));
    case Begin(t, _, _, _) => BalancedSound(s, t, Step(s, a));
    case BeginOn(t, _, _) => BalancedSound(s, t, Step(s, a));
    case Release(t, i) =>
      var h := s.busy[i].host;
      SumUpdate(s.jobs, h, s.jobs[h] - 1);
      BalancedSound(s, t, Step(s, a));
    case _ =>
  }

  /** The executables of host `h`, and the slots that threads hold there. */
  function Owed(s: Sys, h: nat): nat {
    On(s.idle, h) + On(s.busy, h) + HeldOn(s.threads, h)
  }

  /** Every counter is exact. */
  predicate AllAccounted(s: Sys) {
    forall h | 0 <= h < |s.jobs| :: s.jobs[h] == Owed(s, h)
  }

  /** The step starts an executable on another host than the one whose slot it takes. */
  predicate Strays(s: Sys, a: Act) {
    a.Go? && a.t < |s.threads| && s.threads[a.t].Starting? && s.threads[a.t].at != s.threads[a.t].home
  }

  /** What a step changes of host `h`: counter less executables and slots. */
  function Excess(s: Sys, t: nat, h: nat): int
    requires h < |s.jobs| && t < |s.threads|
  {
    s.jobs[h] - On(s.idle, h) - On(s.busy, h) - HoldsOn(s.threads[t], h)
  }

  lemma ExcessOwed(s: Sys, t: nat, r: Sys, h: nat)
    requires h < |s.jobs| == |r.jobs| && Balanced(s, t, r)
    ensures Excess(r, t, h) - Excess(s, t, h) == (r.jobs[h] - Owed(r, h)) - (s.jobs[h] - Owed(s, h))
  {
    HeldUpdate(s.threads, t, r.threads[t], h);
  }

  lemma AdvanceExcess(s: Sys, t: nat, h: nat)
    requires Shape(s) && t < |s.threads| && h < |s.jobs|
    ensures |Advance(s, t).jobs| == |s.jobs| == |s.limits| && |Advance(s, t).threads| == |s.threads|
    ensures Excess(Advance(s, t), t, h) - Excess(s, t, h) ==
            match s.threads[t]
            case Starting(_, at, home) => (if h == home then 1 else 0) - if h == at then 1 else 0
            case _ => 0
  {
    match s.threads[t]
    case Seeking(m, n, _) =>
      var i := Search(s.idle, Same(m, n));
      if i < |s.idle| {
        OnWithout(s.idle, i, h);
        OnOne(s.busy, s.idle[i], h);
      }
    case Hunting(_, want, _, _, _) =>
      var i := Search(s.idle, want);
      if i < |s.idle| {
        OnWithout(s.idle, i, h);
      }
    case Starting(m, at, _) => OnOne(s.busy, Exe(at, m, 0), h);
    case _ =>
  }

  /** Main result: a step keeps every counter exact if and only if it does not stray. */
  lemma StepAccount(s: Sys, a: Act)
    requires Shape(s) && AllAccounted(s) && Enabled(s, a)
    ensures AllAccounted(Step(s, a)) <==> !Strays(s, a)
  {
    StepShape(s, a);
    var r := Step(s, a);
    match a
    case Resize(i, n) =>
      forall h: nat | h < |s.jobs| ensures r.jobs[h] == Owed(r, h) {
        OnResized(s.busy, i, n, h);
      }
    case GiveBack(i) =>
      forall h: nat | h < |s.jobs| ensures r.jobs[h] == Owed(r, h) {
        OnWithout(s.busy, i, h);
        OnOne(s.idle, s.busy[i], h);
      }
    case _ => ThreadAccount(s, a);
  }

  lemma ThreadAccount(s: Sys, a: Act)
    requires Shape(s) && AllAccounted(s) && Enabled(s, a) && (a.Begin? || a.BeginOn? || a.Go? || a.Release?)
    ensures AllAccounted(Step(s, a)) <==> !Strays(s, a)
  {
    StepShape(s, a);
    var r := Step(s, a);
    forall h: nat | h < |s.jobs|
      ensures r.jobs[h] - Owed(r, h) ==
              if !Strays(s, a) then 0
              else (if h == s.threads[a.t].home then 1 else 0) - if h == s.threads[a.t].at then 1 else 0
    {
      match a
      case Go(t) =>
        AdvanceBalanced(s, t);
        AdvanceExcess(s, t, h);
        ExcessOwed(s, t, r, h);
      case Release(t, i) =>
        OnWithout(s.busy, i, h);
        HeldUpdate(s.threads, t, r.threads[t], h);
      case Begin(t, _, _, _) => HeldUpdate(s.threads, t, r.threads[t], h);
      case BeginOn(t, _, _) => HeldUpdate(s.threads, t, r.threads[t], h);
      case _ =>
    }
    if Strays(s, a) {
      var at := s.threads[a.t].at;
      assert Sane(s.threads[a.t], |s.jobs|);
      assert r.jobs[at] != Owed(r, at);
    }
  }

  /** A replacement that a scan has come to strays exactly when another host than the last used, as the
      thread has read it, has the module. */
  lemma ScanStrays(s: Sys, t: nat)
    requires Shape(s) && t < |s.threads| && s.threads[t].Scanning? && Visit(s, t).threads[t].Hunting?
    ensures var th, next := s.threads[t], Visit(s, t).threads[t];
            next.at == th.last && (next.home == next.at <==> OnlyOn(th.has, th.last))
  {
    var th := s.threads[t];
    var k: nat :| k < th.i && th.candidate == Visited(th.last, k, |s.jobs|)
             && th.has[th.candidate] && NoneHas(th.has, th.last, k);
    CandidateIsLast(th.has, th.last, k);
  }

  // ----- Runs -----

  predicate Run(s: Sys, acts: seq<Act>)
    requires Shape(s)
    decreases |acts|
  {
    acts == [] || (Enabled(s, acts[0]) && (StepShape(s, acts[0]); Run(Step(s, acts[0]), acts[1..])))
  }

  function Final(s: Sys, acts: seq<Act>): Sys
    requires Shape(s) && Run(s, acts)
    decreases |acts|
  {
    if acts == [] then s
    else
      StepShape(s, acts[0]);
      Final(Step(s, acts[0]), acts[1..])
  }

  predicate NoneStrays(s: Sys, acts: seq<Act>)
    requires Shape(s) && Run(s, acts)
    decreases |acts|
  {
    acts == [] || (!Strays(s, acts[0]) && (StepShape(s, acts[0]); NoneStrays(Step(s, acts[0]), acts[1..])))
  }

  /** No thread is between two steps of a pass. */
  predicate Quiet(s: Sys) {
    forall t | 0 <= t < |s.threads| :: s.threads[t].Home() < 0
  }

  lemma {:induction false} QuietHolds(ths: seq<Thread>, h: nat)
    requires forall t | 0 <= t < |ths| :: ths[t].Home() < 0
    ensures Held(ths) == 0 && HeldOn(ths, h) == 0
  {
    if ths != [] {
      QuietHolds(ths[1..], h);
    }
  }

  /** The accounts that the atomic operations are about. */
  function View(s: Sys): State {
    State(s.jobs, s.limits, s.last, s.idle, s.busy)
  }

  /** Over any interleaving the counters stay within their limits; whenever no thread holds a slot,
      their sum is the number of live executables. */
  lemma {:induction false} RunSound(s: Sys, acts: seq<Act>)
    requires AllSound(s) && Run(s, acts)
    ensures AllSound(Final(s, acts)) && (Quiet(Final(s, acts)) ==> Sound(View(Final(s, acts))))
    decreases |acts|
  {
    if acts == [] {
      if Quiet(s) {
        QuietHolds(s.threads, 0);
      }
    } else {
      StepSound(s, acts[0]);
      RunSound(Step(s, acts[0]), acts[1..]);
    }
  }

  /** Over an interleaving without a step that strays every counter is exact, too. */
  lemma {:induction false} RunAccounted(s: Sys, acts: seq<Act>)
    requires Shape(s) && AllAccounted(s) && Run(s, acts) && NoneStrays(s, acts)
    ensures var t := Final(s, acts); AllAccounted(t) && (Quiet(t) ==> Accounted(View(t)))
    decreases |acts|
  {
    if acts == [] {
      if Quiet(s) {
        forall h: nat | h < |s.jobs| ensures s.jobs[h] == Live(View(s), h) {
          QuietHolds(s.threads, h);
        }
      }
    } else {
      StepShape(s, acts[0]);
      StepAccount(s, acts[0]);
      RunAccounted(Step(s, acts[0]), acts[1..]);
    }
  }

  // ----- A pass without interference -----

  function Rank(th: Thread, n: nat): int {
    match th
    case Seeking(_, _, _) => n + 9
    case Reading(_, _) => n + 8
    case Scanning(_, _, _, i, _) => n - i + 7
    case Asking(_, _) => 7
    case Hunting(_, _, _, _, _) => 6
    case Killing(_, _, _, _, _) => 5
    case Marking(_, _, _) => 4
    case Placing(_, _) => 4
    case Starting(_, _, _) => 3
    case Ending(_) => 1
    case _ => 0
  }

  lemma RankFalls(s: Sys, t: nat)
    requires Shape(s) && t < |s.threads| && Rank(s.threads[t], |s.jobs|) > 0
    ensures Shape(Advance(s, t)) && |Advance(s, t).threads| == |s.threads| && |Advance(s, t).jobs| == |s.jobs|
    ensures 0 <= Rank(Advance(s, t).threads[t], |s.jobs|) < Rank(s.threads[t], |s.jobs|)
  {
    StepShape(s, Act.Go(t));
    assert Sane(Advance(s, t).threads[t], |s.jobs|);
  }

  /** The steps of thread `t` up to the end of its pass, with no other step between them. */
  function Alone(s: Sys, t: nat): Sys
    requires Shape(s) && t < |s.threads|
    decreases Rank(s.threads[t], |s.jobs|)
  {
    if Rank(s.threads[t], |s.jobs|) <= 0 then s
    else
      RankFalls(s, t);
      Alone(Advance(s, t), t)
  }

  lemma AloneStart(s: Sys, t: nat)
    requires Shape(s) && t < |s.threads| && s.threads[t].Starting?
    ensures View(Alone(s, t)) == View(s).(busy := s.busy + [Exe(s.threads[t].at, s.threads[t].m, 0)])
  {
    RankFalls(s, t);
  }

  lemma AlonePlace(s: Sys, t: nat)
    requires Shape(s) && t < |s.threads| && s.threads[t].Placing?
    ensures var th := s.threads[t];
            View(Alone(s, t)) == View(s).(last := th.at, busy := s.busy + [Exe(th.at, th.m, 0)])
  {
    RankFalls(s, t);
    AloneStart(Advance(s, t), t);
  }

  lemma AloneMark(s: Sys, t: nat)
    requires Shape(s) && t < |s.threads| && s.threads[t].Marking?
    ensures var th := s.threads[t];
            View(Alone(s, t)) == View(s).(last := th.home, busy := s.busy + [Exe(th.at, th.m, 0)])
  {
    RankFalls(s, t);
    AloneStart(Advance(s, t), t);
  }

  lemma AloneHunt(s: Sys, t: nat)
    requires Shape(s) && t < |s.threads| && s.threads[t].Hunting? && s.threads[t].mark
    ensures var th, i := s.threads[t], Search(s.idle, s.threads[t].want);
            View(Alone(s, t)) == if i == |s.idle| then View(s)
                                 else View(s).(last := th.home, idle := Without(s.idle, i),
                                               busy := s.busy + [Exe(th.at, th.m, 0)])
  {
    RankFalls(s, t);
    var next := Advance(s, t);
    if Search(s.idle, s.threads[t].want) < |s.idle| {
      RankFalls(next, t);
      AloneMark(Advance(next, t), t);
    }
  }

  lemma AloneHuntOn(s: Sys, t: nat)
    requires Shape(s) && t < |s.threads| && s.threads[t].Hunting? && !s.threads[t].mark
    ensures var th, i := s.threads[t], Search(s.idle, s.threads[t].want);
            View(Alone(s, t)) == if i == |s.idle| then View(s)
                                 else View(s).(idle := Without(s.idle, i), busy := s.busy + [Exe(th.at, th.m, 0)])
  {
    RankFalls(s, t);
    var next := Advance(s, t);
    if Search(s.idle, s.threads[t].want) < |s.idle| {
      RankFalls(next, t);
      AloneStart(Advance(next, t), t);
    }
  }

  /** A pass on a given host without interference is the atomic one. */
  lemma AloneOnIsAtomic(s: Sys, t: nat) returns (how: How)
    requires Shape(s) && t < |s.threads| && s.threads[t].Asking?
    ensures var th := s.threads[t]; AllocatedOn(View(s), how, View(Alone(s, t)), th.at, th.m, true)
  {
    RankFalls(s, t);
    var th, next := s.threads[t], Advance(s, t);
    if s.jobs[th.at] < s.limits[th.at] {
      AloneStart(next, t);
      how := Started(0);
    } else {
      AloneHuntOn(next, t);
      var i := Search(s.idle, OnHost(th.at));
      how := if i == |s.idle| then NoVictim else Replaced(0, i);
    }
  }

  /** The scan of the hosts, from any visit on. */
  lemma {:induction false} AloneScan(s: Sys, t: nat) returns (how: How)
    requires Shape(s) && t < |s.threads| && s.threads[t].Scanning? && s.threads[t].last == s.last
    requires NoneCanRun(s.threads[t].has, s.jobs, s.limits, s.last, s.threads[t].i)
    ensures Fresh(View(s), how, View(Alone(s, t)), s.threads[t].m, s.threads[t].has)
    decreases |s.jobs| - s.threads[t].i
  {
    RankFalls(s, t);
    var th, n, next := s.threads[t], |s.jobs|, Advance(s, t);
    if th.i == n {
      how := AloneChoice(s, t);
    } else {
      var h := Visited(th.last, th.i, n);
      if th.has[h] && s.jobs[h] < s.limits[h] {
        AlonePlace(next, t);
        how := Started(th.i);
      } else {
        assert !CanRun(th.has, s.jobs, s.limits, h);
        how := AloneScan(next, t);
      }
    }
  }

  /** After the last visit. */
  lemma AloneChoice(s: Sys, t: nat) returns (how: How)
    requires Shape(s) && t < |s.threads| && s.threads[t].Scanning? && s.threads[t].last == s.last
    requires s.threads[t].i == |s.jobs| && NoneCanRun(s.threads[t].has, s.jobs, s.limits, s.last, |s.jobs|)
    ensures Fresh(View(s), how, View(Alone(s, t)), s.threads[t].m, s.threads[t].has)
  {
    RankFalls(s, t);
    var th, n, next := s.threads[t], |s.jobs|, Advance(s, t);
    if th.candidate < 0 {
      how := NoHost;
    } else {
      var k: nat :| k < th.i && th.candidate == Visited(th.last, k, n) && th.has[th.candidate] && NoneHas(th.has, th.last, k);
      var i := Search(s.idle, Other(th.candidate, th.m));
      AloneHunt(next, t);
      how := if i == |s.idle| then NoVictim else Replaced(k, i);
    }
  }

  /** Main result: a pass without interference is the atomic pass of the scheduler. */
  lemma AloneIsAtomic(s: Sys, t: nat) returns (how: How)
    requires Shape(s) && t < |s.threads| && s.threads[t].Seeking?
    ensures var th := s.threads[t]; Scheduled(View(s), how, View(Alone(s, t)), th.m, th.n, th.has)
  {
    RankFalls(s, t);
    var th, next := s.threads[t], Advance(s, t);
    var i := Search(s.idle, Same(th.m, th.n));
    if i < |s.idle| {
      how := Reused(i);
    } else {
      RankFalls(next, t);
      how := AloneScan(Advance(next, t), t);
    }
  }
}
