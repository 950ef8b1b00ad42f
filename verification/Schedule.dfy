/** The round-robin scheduler: arrays of counters and limits, and the pool of objects that stand
for the remote executables. */
module Schedule {
  import opened Accounts
  import opened RpcPool

  /** What one pass of a scheduling loop ends with: an object, the fatal error that no host has the
      module, or a wait after which it is repeated. */
  datatype Outcome = Got(rp: Rpc) | Fatal | Wait

  /** What the caller gets in each case; an object comes into use as the last one. */
  predicate Gets(r: Outcome, how: How, busy: seq<Rpc>, before: seq<Rpc>) {
    match how
    case NoHost => r == Fatal && busy == before
    case NoVictim => r == Wait && busy == before
    case _ => r.Got? && busy == before + [r.rp]
  }

  /** What is left in the idle queue. */
  predicate Leaves(how: How, idle: seq<Rpc>, before: seq<Rpc>) {
    match how
    case Reused(i) => i < |before| && idle == Without(before, i)
    case Replaced(_, i) => i < |before| && idle == Without(before, i)
    case _ => idle == before
  }

  class Scheduler {
    const nJobs: array<int>
    const maxJobs: array<int>
    const pool: Pool
    var lastHost: nat

    ghost function Idle(): seq<Exe>
      reads pool, pool.idle`host, pool.idle`module_, pool.idle`nprocs
    {
      Exes(pool.idle)
    }

    ghost function Busy(): seq<Exe>
      reads pool, pool.busy`host, pool.busy`module_, pool.busy`nprocs
    {
      Exes(pool.busy)
    }

    ghost function Now(): State
      reads this, nJobs, maxJobs, pool
      reads pool.idle`host, pool.idle`module_, pool.idle`nprocs
      reads pool.busy`host, pool.busy`module_, pool.busy`nprocs
    {
      State(nJobs[..], maxJobs[..], lastHost, Idle(), Busy())
    }

    ghost predicate Arrays()
      reads this
    {
      nJobs != maxJobs && nJobs.Length == maxJobs.Length > lastHost
    }

    ghost predicate Valid()
      reads this, nJobs, maxJobs, pool, pool.idle, pool.freed`next
      reads pool.busy`host, pool.busy`module_, pool.busy`nprocs
    {
      Arrays() && pool.Valid() && Sound(Now())
    }

    /** omrpc_scheduler_init. */
    constructor (limits: seq<nat>)
      requires |limits| > 0
      ensures Valid() && fresh(nJobs) && fresh(maxJobs) && fresh(pool) && pool.idle == [] && pool.busy == []
      ensures |Now().jobs| == |limits| && forall h | 0 <= h < |limits| :: Now().jobs[h] == 0
      ensures Now().limits == limits && Now().last == |limits| - 1 && Accounted(Now())
    {
      nJobs := new int[|limits|](i => 0);
      maxJobs := new int[|limits|](i requires 0 <= i < |limits| => limits[i]);
      pool := new Pool();
      lastHost := |limits| - 1;
      new;
      assert maxJobs[..] == limits;
      NoJobs(nJobs[..]);
    }

    // ----- What the pool operations do to the executables -----

    /** The search of the idle queue for the first executable that fits. */
    method TakeFirst(want: Want) returns (rp: Rpc?, ghost i: nat)
      requires pool.Valid()
      modifies pool`head, pool`tail, pool`idle, pool`busy, pool.idle`next, pool.idle`prev
      ensures pool.Valid() && First(old(Idle()), want, i) && (rp == null <==> i == |old(Idle())|)
      ensures if rp == null then pool.idle == old(pool.idle) && pool.busy == old(pool.busy)
              else rp == old(pool.idle)[i] && pool.idle == Without(old(pool.idle), i) && pool.busy == old(pool.busy) + [rp]
      ensures if rp == null then Idle() == old(Idle()) && Busy() == old(Busy())
              else Idle() == Without(old(Idle()), i) && Busy() == old(Busy()) + [old(Idle())[i]]
      ensures Exes(old(pool.busy)) == old(Busy())
    {
      ghost var idle, busy, waiting, before := pool.idle, pool.busy, Idle(), Busy();
      rp, i := pool.Take(want);
      ExesAre(idle, waiting);
      ExesAre(busy, before);
      if rp != null {
        ExesWithout(idle, i);
        ExesAppend(busy, rp);
      }
    }

    /** omrpc_exec_module, as far as the object goes. */
    method ExecModule(h: nat, module_: int) returns (rp: Rpc)
      requires pool.Valid()
      modifies pool`free, pool`freed, pool`busy, pool.freed
      ensures pool.Valid() && pool.idle == old(pool.idle) && pool.busy == old(pool.busy) + [rp]
      ensures Idle() == old(Idle()) && Busy() == old(Busy()) + [Exe(h, module_, 0)]
      ensures fresh(rp) || rp in old(pool.freed)
    {
      ghost var idle, busy, others := Idle(), Busy(), pool.busy;
      rp := pool.NewRpcFor(h, module_, 0);
      ExesAre(pool.idle, idle);
      ExesAre(others, busy);
      ExesAppend(others, rp);
    }

    /** omrpc_kill_rpc: an object in use ends. */
    method Kill(rp: Rpc, ghost i: nat)
      requires pool.Valid() && i < |pool.busy| && pool.busy[i] == rp
      modifies pool`free, pool`freed, pool`busy, rp`next
      ensures pool.Valid() && pool.idle == old(pool.idle) && pool.busy == Without(old(pool.busy), i)
      ensures pool.freed == [rp] + old(pool.freed)
      ensures Idle() == old(Idle()) && Busy() == Without(old(Busy()), i)
    {
      ExesWithout(pool.busy, i);
      pool.DeleteRpc(rp, i);
    }

    /** omrpc_kill_rpc, for the object that came into use last. */
    method KillLast(rp: Rpc, ghost others: seq<Rpc>, ghost busy: seq<Exe>)
      requires pool.Valid() && pool.busy == others + [rp] && Exes(others) == busy
      modifies pool`free, pool`freed, pool`busy, rp`next
      ensures pool.Valid() && pool.idle == old(pool.idle) && pool.busy == others && pool.freed == [rp] + old(pool.freed)
      ensures Idle() == old(Idle()) && Busy() == busy
    {
      assert Without(pool.busy, |others|) == others;
      pool.DeleteRpc(rp, |others|);
    }

    /** The victim branches of omrpc_schedule_rpc and omrpc_allocate_rpc_on_host: the first idle
        executable that fits is killed, and a new one is run on `host`. */
    method Replace(want: Want, host: nat, module_: int) returns (rp: Rpc?, ghost i: nat)
      requires pool.Valid()
      modifies pool, pool.idle, pool.freed
      ensures pool.Valid() && First(old(Idle()), want, i) && (rp == null <==> i == |old(Idle())|)
      ensures if rp == null then pool.idle == old(pool.idle) && pool.busy == old(pool.busy)
              else pool.idle == Without(old(pool.idle), i) && pool.busy == old(pool.busy) + [rp]
      ensures if rp == null then Idle() == old(Idle()) && Busy() == old(Busy())
              else Idle() == Without(old(Idle()), i) && Busy() == old(Busy()) + [Exe(host, module_, 0)]
      ensures rp != null ==> fresh(rp) || rp in old(pool.idle) || rp in old(pool.freed)
    {
      ghost var others, busy := pool.busy, Busy();
      rp, i := TakeFirst(want);
      if rp != null {
        KillLast(rp, others, busy);
        rp := ExecModule(host, module_);
      }
    }

    // ----- The counters -----

    /** omrpc_allocate_jobs. */
    method AllocateJobs(h: nat) returns (flag: bool)
      requires Arrays() && h < nJobs.Length
      modifies nJobs
      ensures flag == old(nJobs[h] < maxJobs[h])
      ensures nJobs[..] == if flag then old(nJobs[..])[h := old(nJobs[h]) + 1] else old(nJobs[..])
    {
      flag := nJobs[h] < maxJobs[h];
      if flag {
        nJobs[h] := nJobs[h] + 1;
      }
    }

    /** The search of omrpc_schedule_rpc: the first host after the last used, in a circle, that
        has the module and a free slot, which is taken; or else the first that has the module.
        `at` is the visit that found it, `host` the host visited last. */
    method FindHost(has: seq<bool>) returns (found: bool, host: nat, candidate: int, ghost at: nat)
      requires Arrays() && |has| == nJobs.Length
      modifies nJobs
      ensures at <= |has| && host < |has|
      ensures nJobs[..] == if found then old(nJobs[..])[host := old(nJobs[host]) + 1] else old(nJobs[..])
      ensures if found then
                && at < |has| && host == Visited(lastHost, at, |has|)
                && CanRun(has, old(nJobs[..]), maxJobs[..], host)
                && NoneCanRun(has, old(nJobs[..]), maxJobs[..], lastHost, at)
              else
                && host == lastHost && NoneCanRun(has, old(nJobs[..]), maxJobs[..], lastHost, |has|)
                && (if candidate < 0 then NoneHas(has, lastHost, |has|)
                    else && at < |has| && candidate == Visited(lastHost, at, |has|)
                         && has[candidate] && NoneHas(has, lastHost, at))
      ensures found ==> host == (lastHost + 1 + at) % |has|
    {
      ghost var n, jobs, limits := |has|, nJobs[..], maxJobs[..];
      candidate, at := -1, 0;
      var id := if lastHost + 1 < nJobs.Length then lastHost + 1 else 0;
      host := id;
      var i: nat := 0;
      while i < nJobs.Length
        invariant i <= n && at <= n && nJobs[..] == jobs && host < n
        invariant i < n ==> id == Visited(lastHost, i, n)
        invariant i > 0 ==> host == Visited(lastHost, i - 1, n)
        invariant NoneCanRun(has, jobs, limits, lastHost, i)
        invariant candidate < 0 ==> NoneHas(has, lastHost, i)
        invariant candidate >= 0 ==> at < i && candidate == Visited(lastHost, at, n) && has[candidate]
        invariant candidate >= 0 ==> NoneHas(has, lastHost, at)
      {
        host := id;
        if has[id] {
          found := AllocateJobs(id);
          if found {
            at := i;
            Wraps(lastHost + 1 + i, n);
            return;
          }
          if candidate < 0 {
            candidate, at := id, i;
          }
        }
        id := id + 1;
        if id >= nJobs.Length {
          id := 0;
        }
        i := i + 1;
      }
      found := false;
    }

    // ----- The operations -----

    /** A new executable on `host`. */
    method StartOn(host: nat, module_: int) returns (rp: Rpc)
      requires pool.Valid()
      modifies pool`free, pool`freed, pool`busy, pool.freed
      ensures pool.Valid() && pool.idle == old(pool.idle) && pool.busy == old(pool.busy) + [rp]
      ensures Now() == old(Now()).(busy := old(Now()).busy + [Exe(host, module_, 0)])
      ensures fresh(rp) || rp in old(pool.freed)
    {
      rp := ExecModule(host, module_);
    }

    /** A new executable on `host` in place of the first idle one that fits. */
    method ReplaceOn(want: Want, host: nat, module_: int) returns (rp: Rpc?, ghost i: nat)
      requires pool.Valid()
      modifies pool, pool.idle, pool.freed
      ensures pool.Valid() && First(old(Now()).idle, want, i) && (rp == null <==> i == |old(Now()).idle|)
      ensures if rp == null then pool.idle == old(pool.idle) && pool.busy == old(pool.busy) && Now() == old(Now())
              else && i < |old(pool.idle)| && pool.idle == Without(old(pool.idle), i) && pool.busy == old(pool.busy) + [rp]
                   && Now() == old(Now()).(idle := Without(old(Now()).idle, i),
                                           busy := old(Now()).busy + [Exe(host, module_, 0)])
      ensures rp != null ==> fresh(rp) || rp in old(pool.idle) || rp in old(pool.freed)
    {
      rp, i := Replace(want, host, module_);
    }

    /** The first branch of omrpc_schedule_rpc: `host` becomes the host used last. */
    method StartNext(host: nat, module_: int) returns (rp: Rpc)
      requires pool.Valid()
      modifies this`lastHost, pool`free, pool`freed, pool`busy, pool.freed
      ensures pool.Valid() && pool.idle == old(pool.idle) && pool.busy == old(pool.busy) + [rp] && lastHost == host
      ensures Now() == old(Now()).(last := host, busy := old(Now()).busy + [Exe(host, module_, 0)])
      ensures fresh(rp) || rp in old(pool.freed)
    {
      lastHost := host;
      rp := StartOn(host, module_);
    }

    /** Its last branch: the new executable runs on `host`, and `candidate` becomes the host used
        last. */
    method ReplaceNext(candidate: nat, host: nat, module_: int) returns (rp: Rpc?, ghost i: nat)
      requires pool.Valid()
      modifies this`lastHost, pool, pool.idle, pool.freed
      ensures pool.Valid() && First(old(Now()).idle, Other(candidate, module_), i) && (rp == null <==> i == |old(Now()).idle|)
      ensures if rp == null then pool.idle == old(pool.idle) && pool.busy == old(pool.busy) && Now() == old(Now())
              else && lastHost == candidate && i < |old(pool.idle)|
                   && pool.idle == Without(old(pool.idle), i) && pool.busy == old(pool.busy) + [rp]
                   && Now() == old(Now()).(last := candidate, idle := Without(old(Now()).idle, i),
                                           busy := old(Now()).busy + [Exe(host, module_, 0)])
      ensures rp != null ==> fresh(rp) || rp in old(pool.idle) || rp in old(pool.freed)
    {
      rp, i := ReplaceOn(Other(candidate, module_), host, module_);
      if rp != null {
        lastHost := candidate;
      }
    }

    /** omrpc_schedule_rpc when no idle executable suits. */
    method StartRpc(module_: int, has: seq<bool>) returns (r: Outcome, ghost how: How)
      requires Arrays() && pool.Valid() && |has| == nJobs.Length
      modifies this`lastHost, nJobs, pool, pool.idle, pool.freed
      ensures Arrays() && pool.Valid() && Fresh(old(Now()), how, Now(), module_, has)
      ensures Gets(r, how, pool.busy, old(pool.busy)) && Leaves(how, pool.idle, old(pool.idle))
      ensures r.Got? ==> fresh(r.rp) || r.rp in old(pool.idle) || r.rp in old(pool.freed)
    {
      ghost var s := Now();
      var found, host, candidate, at := FindHost(has);
      if found {
        assert Now() == s.(jobs := nJobs[..]);
        var rp := StartNext(host, module_);
        return Got(rp), Started(at);
      }
      if candidate < 0 {
        return Fatal, NoHost;
      }
      assert Now() == s;
      var rp, i := ReplaceNext(candidate, host, module_);
      if rp != null {
        return Got(rp), Replaced(at, i);
      }
      r, how := Wait, NoVictim;
    }

    /** One pass of omrpc_schedule_rpc, for hosts that do not run MPI.  `has` says which hosts
        have the module. */
    method ScheduleRpc(module_: int, nprocs: nat, has: seq<bool>) returns (r: Outcome, ghost how: How)
      requires Valid() && |has| == nJobs.Length
      modifies this`lastHost, nJobs, pool, pool.idle, pool.freed
      ensures Valid() && Scheduled(old(Now()), how, Now(), module_, nprocs, has)
      ensures Gets(r, how, pool.busy, old(pool.busy)) && Leaves(how, pool.idle, old(pool.idle))
      ensures r.Got? ==> fresh(r.rp) || r.rp in old(pool.idle) || r.rp in old(pool.freed)
      ensures how.Reused? ==> r.rp == old(pool.idle)[how.i]
    {
      ghost var s := Now();
      var rp, i := TakeFirst(Same(module_, nprocs));
      if rp != null {
        r, how := Got(rp), Reused(i);
      } else {
        assert Now() == s;
        r, how := StartRpc(module_, has);
      }
      SoundKept(s, Op.Schedule(module_, nprocs, has, how), Now());
    }

    /** `rp->nprocs = nprocs` for the `i`-th object in use. */
    method SetNprocs(rp: Rpc, nprocs: nat, ghost i: nat)
      requires Valid() && i < |pool.busy| && pool.busy[i] == rp
      modifies rp`nprocs
      ensures Valid() && Next(old(Now()), SetSize(i, nprocs), Now())
    {
      ghost var s := Now();
      Parts(pool.idle, pool.freed, pool.busy);
      rp.nprocs := nprocs;
      ExesAre(pool.idle, s.idle);
      ExesAre(pool.busy, s.busy[i := s.busy[i].(nprocs := nprocs)]);
      SoundKept(s, SetSize(i, nprocs), Now());
    }

    /** OmniRpcCallAsync up to its submission: the object that a pass gives is of the asked size. */
    method CallAsync(module_: int, nprocs: nat, has: seq<bool>) returns (r: Outcome, ghost how: How, ghost mid: State)
      requires Valid() && |has| == nJobs.Length
      modifies this`lastHost, nJobs, pool, pool.idle, pool.freed
      ensures Valid() && Scheduled(old(Now()), how, mid, module_, nprocs, has)
      ensures if r.Got? then mid.busy != [] && Next(mid, SetSize(|mid.busy| - 1, nprocs), Now()) else Now() == mid
      ensures Gets(r, how, pool.busy, old(pool.busy)) && Leaves(how, pool.idle, old(pool.idle))
      ensures r.Got? ==> fresh(r.rp) || r.rp in old(pool.idle) || r.rp in old(pool.freed)
    {
      r, how := ScheduleRpc(module_, nprocs, has);
      mid := Now();
      if r.Got? {
        SetNprocs(r.rp, nprocs, |pool.busy| - 1);
      }
    }

    /** omrpc_allocate_rpc_on_host once the host is known to have the module. */
    method StartOnHost(h: nat, module_: int) returns (r: Outcome, ghost how: How)
      requires Arrays() && pool.Valid() && h < nJobs.Length
      modifies nJobs, pool, pool.idle, pool.freed
      ensures pool.Valid() && AllocatedOn(old(Now()), how, Now(), h, module_, true)
      ensures Gets(r, how, pool.busy, old(pool.busy)) && Leaves(how, pool.idle, old(pool.idle))
    {
      ghost var s := Now();
      var status := AllocateJobs(h);
      if status {
        assert Now() == s.(jobs := nJobs[..]);
        var rp := StartOn(h, module_);
        return Got(rp), Started(0);
      }
      assert Now() == s;
      var rp, i := ReplaceOn(OnHost(h), h, module_);
      if rp != null {
        return Got(rp), Replaced(0, i);
      }
      r, how := Wait, NoVictim;
    }

    /** One pass of omrpc_allocate_rpc_on_host; `has` says whether host `h` has the module. */
    method AllocateOnHost(h: nat, module_: int, has: bool) returns (r: Outcome, ghost how: How)
      requires Valid() && h < nJobs.Length
      modifies nJobs, pool, pool.idle, pool.freed
      ensures Valid() && AllocatedOn(old(Now()), how, Now(), h, module_, has)
      ensures Gets(r, how, pool.busy, old(pool.busy)) && Leaves(how, pool.idle, old(pool.idle))
    {
      ghost var s := Now();
      if has {
        r, how := StartOnHost(h, module_);
        SoundKept(s, Allocate(h, module_, has, how), Now());
      } else {
        r, how := Fatal, NoHost;
      }
    }

    /** omrpc_put_idle_rpc: a finished executable stays where and what it is, and keeps its slot. */
    method PutIdle(rp: Rpc, ghost i: nat)
      requires Valid() && i < |pool.busy| && pool.busy[i] == rp
      modifies pool, pool.idle`next, rp`next, rp`prev
      ensures Valid() && Next(old(Now()), GiveBack(i), Now())
      ensures pool.idle == old(pool.idle) + [rp] && pool.busy == Without(old(pool.busy), i)
    {
      ghost var s := Now();
      ExesWithout(pool.busy, i);
      ExesAppend(pool.idle, rp);
      pool.QueuePut(rp, i);
      SoundKept(s, GiveBack(i), Now());
    }

    /** OmniRpcDestroyHandle: the slot of the executable's host is released and the executable ends. */
    method DestroyHandle(rp: Rpc, ghost i: nat)
      requires Valid() && i < |pool.busy| && pool.busy[i] == rp && 0 <= rp.host < nJobs.Length
      modifies nJobs, pool, rp`next
      ensures Valid() && Next(old(Now()), Destroy(i), Now())
      ensures pool.idle == old(pool.idle) && pool.busy == Without(old(pool.busy), i)
    {
      ghost var s := Now();
      nJobs[rp.host] := nJobs[rp.host] - 1;
      assert nJobs[..] == s.jobs[rp.host := s.jobs[rp.host] - 1];
      assert Idle() == s.idle && Busy() == s.busy;
      Kill(rp, i);
      SoundKept(s, Destroy(i), Now());
    }
  }

  lemma {:induction false} NoJobs(s: seq<int>)
    requires forall h | 0 <= h < |s| :: s[h] == 0
    ensures Sum(s) == 0
  {
    if s != [] {
      NoJobs(s[1..]);
    }
  }
}
