/** Scheduling by MPI_Comm_spawn: one host whose nodes are shared out among the remote
executables, and the eviction of idle ones. */
module MpiNodes {
  import opened RpcPool

  /** The module of an executable and the nodes it occupies. */
  datatype Kind = Kind(module_: int, nprocs: nat)

  function Kinds(s: seq<Rpc>): (r: seq<Kind>)
    reads s`module_, s`nprocs
    ensures |r| == |s| && forall k {:trigger r[k]} | 0 <= k < |s| :: r[k] == Kind(s[k].module_, s[k].nprocs)
  {
    if s == [] then [] else [Kind(s[0].module_, s[0].nprocs)] + Kinds(s[1..])
  }

  lemma KindsAre(s: seq<Rpc>, v: seq<Kind>)
    requires |v| == |s| && forall k | 0 <= k < |s| :: v[k] == Kind(s[k].module_, s[k].nprocs)
    ensures Kinds(s) == v
  {
  }

  lemma KindsAppend(s: seq<Rpc>, o: Rpc)
    ensures Kinds(s + [o]) == Kinds(s) + [Kind(o.module_, o.nprocs)]
  {
    KindsAre(s + [o], Kinds(s) + [Kind(o.module_, o.nprocs)]);
  }

  lemma KindsWithout(s: seq<Rpc>, i: nat)
    requires i < |s|
    ensures Kinds(Without(s, i)) == Without(Kinds(s), i)
  {
    KindsAre(Without(s, i), Without(Kinds(s), i));
  }

  lemma SuitsByKind(s: seq<Rpc>, kind: Kind)
    ensures forall k | 0 <= k < |s| :: Suits(s[k], OtherShape(kind.module_, kind.nprocs)) <==> Kinds(s)[k] != kind
  {
  }

  lemma NoneSuits(s: seq<Rpc>, kind: Kind)
    ensures NoneOf(Kinds(s), kind) <==> forall k | 0 <= k < |s| :: !Suits(s[k], Same(kind.module_, kind.nprocs))
    ensures forall i | 0 <= i <= |s| && (forall k | 0 <= k < i :: !Suits(s[k], Same(kind.module_, kind.nprocs))) ::
              NoneOf(Kinds(s)[..i], kind)
  {
    forall k | 0 <= k < |s| ensures Suits(s[k], Same(kind.module_, kind.nprocs)) <==> Kinds(s)[k] == kind {
    }
  }

  // ----- Totals -----

  function Nodes(v: seq<Kind>): nat {
    if v == [] then 0 else v[0].nprocs + Nodes(v[1..])
  }

  lemma {:induction false} NodesAppend(v: seq<Kind>, w: seq<Kind>)
    ensures Nodes(v + w) == Nodes(v) + Nodes(w)
  {
    if v == [] {
      assert v + w == w;
    } else {
      assert (v + w)[1..] == v[1..] + w;
      NodesAppend(v[1..], w);
    }
  }

  lemma NodesMoved(v: seq<Kind>, w: seq<Kind>, i: nat)
    requires i < |v|
    ensures Nodes(Without(v, i)) == Nodes(v) - v[i].nprocs
    ensures Nodes(w + [v[i]]) == Nodes(w) + v[i].nprocs
  {
    NodesAppend(v[..i], v[i + 1..]);
    NodesAppend(v[..i], v[i..]);
    NodesAppend(w, [v[i]]);
    assert v == v[..i] + v[i..] && v[i..][1..] == v[i + 1..];
  }

  lemma NodesOfPrefix(v: seq<Kind>, n: nat)
    requires n <= |v|
    ensures Nodes(v[..n]) <= Nodes(v)
    ensures n < |v| ==> Nodes(v[..n + 1]) == Nodes(v[..n]) + v[n].nprocs
  {
    NodesAppend(v[..n], v[n..]);
    assert v == v[..n] + v[n..];
    if n < |v| {
      NodesAppend(v[..n], [v[n]]);
      assert v[..n + 1] == v[..n] + [v[n]];
    }
  }

  /** Of the idle executables `kinds`, the first `n` are gone, and they held `killed` nodes. */
  predicate Evicted(kinds: seq<Kind>, n: nat, killed: int, idle: seq<Kind>) {
    n <= |kinds| && idle == kinds[n..] && killed == Nodes(kinds[..n])
  }

  lemma EvictedOneMore(kinds: seq<Kind>, n: nat, killed: int, idle: seq<Kind>, kind: Kind)
    requires Evicted(kinds, n, killed, idle) && NoneOf(kinds, kind)
    ensures NoneOf(idle, kind) && (idle == [] <==> n == |kinds|)
    ensures idle != [] ==> Evicted(kinds, n + 1, killed + idle[0].nprocs, idle[1..])
  {
    NodesOfPrefix(kinds, n);
  }

  predicate NoneOf(v: seq<Kind>, kind: Kind) {
    forall k | 0 <= k < |v| :: v[k] != kind
  }

  /** What one pass of the scheduling loop ends with: an object, a fatal error, or a wait
      after which it is repeated. */
  datatype Outcome = Got(rp: Rpc) | Fatal | Wait

  class MpiHost {
    const pool: Pool
    const total: int
    var used: int
    var nJobs: int
    var maxJobs: int

    ghost function Idle(): seq<Kind>
      reads pool, pool.idle`module_, pool.idle`nprocs
    {
      Kinds(pool.idle)
    }

    ghost function Busy(): seq<Kind>
      reads pool, pool.busy`module_, pool.busy`nprocs
    {
      Kinds(pool.busy)
    }

    /** One node for the client and those of the live executables, no more than there are. */
    ghost predicate Valid()
      reads this, pool, pool.idle, pool.freed`next, pool.busy`module_, pool.busy`nprocs
    {
      pool.Valid() && nJobs <= 0 < maxJobs && used == 1 + Nodes(Idle()) + Nodes(Busy()) <= total
    }

    constructor (total: int, maxJobs: int)
      requires total >= 1 && maxJobs >= 1
      ensures Valid() && this.total == total && this.maxJobs == maxJobs && used == 1
      ensures pool.idle == [] && pool.busy == [] && fresh(pool)
    {
      this.total, this.maxJobs := total, maxJobs;
      used, nJobs := 1, 0;
      pool := new Pool();
    }

    // ----- What the pool operations do to the kinds -----

    /** omrpc_get_idle_rpc. */
    method TakeSame(kind: Kind) returns (rp: Rpc?, ghost i: nat)
      requires pool.Valid()
      modifies pool`head, pool`tail, pool`idle, pool`busy, pool.idle`next, pool.idle`prev
      ensures pool.Valid() && (rp == null <==> NoneOf(old(Idle()), kind))
      ensures if rp == null then Idle() == old(Idle()) && Busy() == old(Busy())
              else && i < |old(pool.idle)| && old(Idle())[i] == kind && NoneOf(old(Idle())[..i], kind)
                   && Idle() == Without(old(Idle()), i) && Busy() == old(Busy()) + [kind]
      ensures if rp == null then pool.idle == old(pool.idle) && pool.busy == old(pool.busy)
              else rp == old(pool.idle)[i] && pool.idle == Without(old(pool.idle), i) && pool.busy == old(pool.busy) + [rp]
    {
      ghost var idle, busy, kinds, before := pool.idle, pool.busy, Idle(), Busy();
      NoneSuits(idle, kind);
      rp, i := pool.Take(Same(kind.module_, kind.nprocs));
      KindsAre(idle, kinds);
      KindsAre(busy, before);
      if rp != null {
        assert kinds[i] == kind;
        KindsWithout(idle, i);
        KindsAppend(busy, rp);
      }
    }

    /** omrpcm_get_victim_idle_rpc: the first idle executable of another kind. */
    method TakeVictim(kind: Kind) returns (rp: Rpc?, ghost i: nat)
      requires pool.Valid()
      modifies pool`head, pool`tail, pool`idle, pool`busy, pool.idle`next, pool.idle`prev
      ensures pool.Valid() && i <= |old(Idle())| && forall k | 0 <= k < i :: old(Idle())[k] == kind
      ensures if rp == null then i == |old(Idle())| && Idle() == old(Idle()) && Busy() == old(Busy())
              else && i < |old(Idle())| && old(Idle())[i] != kind
                   && Idle() == Without(old(Idle()), i) && Busy() == old(Busy()) + [old(Idle())[i]]
      ensures if rp == null then pool.idle == old(pool.idle) && pool.busy == old(pool.busy)
              else rp == old(pool.idle)[i] && pool.idle == Without(old(pool.idle), i) && pool.busy == old(pool.busy) + [rp]
      ensures rp != null ==> rp.nprocs == old(Idle())[i].nprocs && Kinds(old(pool.busy)) == old(Busy())
    {
      ghost var idle, busy, kinds, before := pool.idle, pool.busy, Idle(), Busy();
      SuitsByKind(idle, kind);
      rp, i := pool.Take(OtherShape(kind.module_, kind.nprocs));
      if rp != null {
        KindsAre(idle, kinds);
        KindsWithout(idle, i);
        KindsAppend(busy, rp);
        KindsAre(busy, before);
      }
    }

    /** omrpcm_spawn_module and the caller's `rp->nprocs = nprocs`. */
    method Create(kind: Kind) returns (rp: Rpc)
      requires pool.Valid()
      modifies pool`free, pool`freed, pool`busy, pool.freed
      ensures pool.Valid() && pool.idle == old(pool.idle) && pool.busy == old(pool.busy) + [rp]
      ensures Idle() == old(Idle()) && Busy() == old(Busy()) + [kind]
    {
      ghost var idle, busy, others := Idle(), Busy(), pool.busy;
      rp := pool.NewRpcFor(0, kind.module_, kind.nprocs);
      KindsAre(pool.idle, idle);
      KindsAre(others, busy);
      KindsAppend(others, rp);
    }

    /** omrpcm_kill_rpc and the `rp->nprocs = 0` after it, for the object that came into use
        last. */
    method Discard(rp: Rpc, ghost others: seq<Rpc>)
      requires pool.Valid() && pool.busy == others + [rp]
      modifies pool`free, pool`freed, pool`busy, rp`next, rp`nprocs
      ensures pool.Valid() && pool.busy == others && pool.idle == old(pool.idle) && pool.freed == [rp] + old(pool.freed)
      ensures Idle() == old(Idle()) && Busy() == old(Kinds(others))
    {
      ghost var idle, busy := Idle(), Kinds(others);
      assert Without(pool.busy, |others|) == others;
      pool.DeleteVictim(rp, |others|);
      KindsAre(pool.idle, idle);
      KindsAre(others, busy);
    }

    /** omrpc_put_idle_rpc, at the end of a call. */
    method PutBack(rp: Rpc, ghost i: nat)
      requires pool.Valid() && i < |pool.busy| && pool.busy[i] == rp
      modifies pool, pool.idle`next, rp`next, rp`prev
      ensures pool.Valid() && pool.idle == old(pool.idle) + [rp] && pool.busy == Without(old(pool.busy), i)
      ensures Idle() == old(Idle()) + [old(Busy())[i]] && Busy() == Without(old(Busy()), i)
    {
      ghost var idle, busy := pool.idle, pool.busy;
      KindsWithout(busy, i);
      KindsAppend(idle, rp);
      pool.QueuePut(rp, i);
    }

    /** A victim is taken and killed: with no idle executable of the kind that is wanted, it is
        the first in the queue. */
    method KillFirst(kind: Kind) returns (rp: Rpc?, nodes: nat)
      requires pool.Valid() && NoneOf(Idle(), kind)
      modifies pool, pool.idle
      ensures pool.Valid() && Busy() == old(Busy()) && pool.busy == old(pool.busy)
      ensures if rp == null then old(Idle()) == [] && nodes == 0
              else old(Idle()) != [] && nodes == old(Idle())[0].nprocs
      ensures Idle() == if rp == null then [] else old(Idle())[1..]
      ensures pool.idle == if rp == null then [] else old(pool.idle)[1..]
      ensures pool.Stored() == old(pool.Stored())
    {
      nodes := 0;
      ghost var i, busy, kinds := 0, pool.busy, Idle();
      assert kinds != [] ==> kinds[0] != kind;
      rp, i := TakeVictim(kind);
      if rp != null {
        FirstOf(old(pool.idle), old(Idle()), old(pool.freed), i);
        nodes := rp.nprocs;
        Discard(rp, busy);
      }
    }

    // ----- The accounts -----

    /** omrpcm_allocate_jobs. */
    method AllocateJobs(nprocs: nat) returns (flag: bool)
      modifies this`used, this`nJobs
      ensures flag == (old(used) + nprocs <= total && old(nJobs) < maxJobs)
      ensures used == old(used) + (if flag then nprocs else 0) && nJobs == old(nJobs) + (if flag then 1 else 0)
    {
      flag := false;
      if used + nprocs <= total {
        if nJobs < maxJobs {
          nJobs := nJobs + 1;
          used := used + nprocs;
          flag := true;
        }
      }
    }

    /** A new executable and its nodes. */
    method Spawn(kind: Kind) returns (rp: Rpc)
      requires Valid() && used + kind.nprocs <= total
      modifies this`used, pool`free, pool`freed, pool`busy, pool.freed
      ensures Valid() && used == old(used) + kind.nprocs
      ensures pool.idle == old(pool.idle) && pool.busy == old(pool.busy) + [rp]
      ensures Idle() == old(Idle()) && Busy() == old(Busy()) + [kind]
    {
      NodesMoved([kind], Busy(), 0);
      rp := Create(kind);
      used := used + kind.nprocs;
    }

    /** The accounts after a victim of that many nodes. */
    method Release(nodes: nat)
      requires nJobs <= 0 < maxJobs
      modifies this`used, this`nJobs, this`maxJobs
      ensures nJobs <= 0 < maxJobs && used == old(used) - nodes
    {
      used := used - nodes;
      nJobs := nJobs - 1;
      maxJobs := maxJobs + 1;
    }

    /** One turn of the eviction loop. */
    method Evict(kind: Kind) returns (rp: Rpc?, nodes: nat)
      requires Valid() && NoneOf(Idle(), kind)
      modifies this`used, this`nJobs, this`maxJobs, pool, pool.idle
      ensures Valid() && used == old(used) - nodes && Busy() == old(Busy()) && pool.busy == old(pool.busy)
      ensures pool.Stored() == old(pool.Stored())
      ensures if rp == null then nodes == 0 && Idle() == old(Idle()) == [] && pool.idle == []
              else old(Idle()) != [] && nodes == old(Idle())[0].nprocs
                   && Idle() == old(Idle())[1..] && pool.idle == old(pool.idle)[1..]
    {
      rp, nodes := KillFirst(kind);
      if rp != null {
        Release(nodes);
      }
    }

    /** The same, counted: `n` of `kinds` were evicted before. */
    method EvictNext(kind: Kind, killed: int, ghost kinds: seq<Kind>, ghost n: nat) returns (rp: Rpc?, sum: int)
      requires Valid() && NoneOf(kinds, kind) && Evicted(kinds, n, killed, Idle())
      modifies this`used, this`nJobs, this`maxJobs, pool, pool.idle
      ensures Valid() && used + sum == old(used) + killed && Busy() == old(Busy()) && pool.busy == old(pool.busy)
      ensures pool.Stored() == old(pool.Stored())
      ensures if rp == null then n == |kinds| && sum == killed && Idle() == [] else Evicted(kinds, n + 1, sum, Idle())
    {
      EvictedOneMore(kinds, n, killed, Idle(), kind);
      var nodes: nat;
      rp, nodes := Evict(kind);
      sum := killed + nodes;
    }

    /** The eviction loop: idle executables are killed from the front of the queue until they
        have held `req` nodes, or until none is left; `n` are. */
    method MakeRoom(kind: Kind, req: nat) returns (rp: Rpc?, killed: int, ghost n: nat)
      requires Valid() && NoneOf(Idle(), kind) && req > 0
      modifies this`used, this`nJobs, this`maxJobs, pool, pool.Stored()
      ensures Valid() && used == old(used) - killed && Busy() == old(Busy()) && pool.busy == old(pool.busy)
      ensures Evicted(old(Idle()), n, killed, Idle()) && pool.Stored() == old(pool.Stored())
      ensures if killed >= req then n > 0 && rp != null && Nodes(old(Idle())[..n - 1]) < req
              else rp == null && n == |old(Idle())|
    {
      ghost var kinds := Idle();
      rp, killed, n := null, 0, 0;
      while killed < req || nJobs >= maxJobs
        invariant Valid() && used == old(used) - killed && Busy() == old(Busy()) && pool.busy == old(pool.busy)
        invariant Evicted(kinds, n, killed, Idle()) && pool.Stored() == old(pool.Stored())
        invariant n > 0 ==> rp != null && Nodes(kinds[..n - 1]) < req
        decreases |kinds| - n
      {
        assert forall o | o in pool.idle :: o in pool.Stored();
        var sum;
        rp, sum := EvictNext(kind, killed, kinds, n);
        if rp == null {
          break;
        }
        killed := sum;
        n := n + 1;
      }
    }

    /** The last part of omrpcm_schedule_rpc: evictions, and a new executable if they gave
        enough nodes. */
    method EvictThenSpawn(kind: Kind) returns (r: Outcome, ghost n: nat)
      requires Valid() && NoneOf(Idle(), kind) && used + kind.nprocs > total
      modifies this`used, this`nJobs, this`maxJobs, pool, pool.Stored()
      ensures Valid() && n <= |old(Idle())| && Idle() == old(Idle())[n..] && !r.Fatal?
      ensures r.Got? <==> Nodes(old(Idle())) >= old(used) + kind.nprocs - total
      ensures r.Got? ==> n > 0 && Nodes(old(Idle())[..n - 1]) < old(used) + kind.nprocs - total
      ensures r.Got? ==> Busy() == old(Busy()) + [kind] && pool.busy == old(pool.busy) + [r.rp]
      ensures r.Wait? ==> n == |old(Idle())| && Busy() == old(Busy())
    {
      ghost var kinds := Idle();
      var req := used + kind.nprocs - total;
      var rp, killed;
      rp, killed, n := MakeRoom(kind, req);
      NodesOfPrefix(kinds, n);
      assert n == |kinds| ==> kinds[..n] == kinds;
      if killed >= req && rp != null {
        assert forall o | o in pool.freed :: o in pool.Stored();
        rp := Spawn(kind);
        return Got(rp), n;
      }
      r := Wait;
    }

    /** One pass of omrpcm_schedule_rpc for a call that is not made through a handle; `has`
        says whether the host has the module.  `n` executables are evicted: none unless the
        free nodes do not suffice, and then no more than needed. */
    method ScheduleRpc(kind: Kind, has: bool) returns (r: Outcome, ghost n: nat)
      requires Valid()
      modifies this`used, this`nJobs, this`maxJobs, pool, pool.Stored()
      ensures Valid()
      ensures
        if !NoneOf(old(Idle()), kind) then r.Got? && r.rp in old(pool.idle) && used == old(used)
        else if old(used) + kind.nprocs <= total then r.Got? && Idle() == old(Idle()) && used == old(used) + kind.nprocs
        else if !has || kind.nprocs > total - 1 then r.Fatal? && Idle() == old(Idle()) && used == old(used)
        else if Nodes(old(Idle())) >= old(used) + kind.nprocs - total then
          && r.Got? && 0 < n <= |old(Idle())| && Idle() == old(Idle())[n..]
          && Nodes(old(Idle())[..n - 1]) < old(used) + kind.nprocs - total
        else r.Wait? && Idle() == []
      ensures Busy() == if r.Got? then old(Busy()) + [kind] else old(Busy())
      ensures r.Got? ==> pool.busy == old(pool.busy) + [r.rp]
    {
      var rp := ReuseIdle(kind);
      if rp != null {
        return Got(rp), 0;
      }
      if used + kind.nprocs <= total {
        rp := Spawn(kind);
        return Got(rp), 0;
      }
      if !has {
        return Fatal, 0;
      }
      // the same test has just failed, so this never allocates anything
      var status := AllocateJobs(kind.nprocs);
      if kind.nprocs > total - 1 {
        return Fatal, 0;
      }
      r, n := EvictThenSpawn(kind);
    }

    /** The idle executable that ScheduleRpc looks for first. */
    method ReuseIdle(kind: Kind) returns (rp: Rpc?)
      requires Valid()
      modifies pool`head, pool`tail, pool`idle, pool`busy, pool.idle`next, pool.idle`prev
      ensures Valid() && (rp == null <==> NoneOf(old(Idle()), kind))
      ensures rp == null ==> Idle() == old(Idle()) && Busy() == old(Busy())
      ensures rp == null ==> pool.idle == old(pool.idle) && pool.busy == old(pool.busy)
      ensures rp != null ==> rp in old(pool.idle) && Busy() == old(Busy()) + [kind] && pool.busy == old(pool.busy) + [rp]
    {
      ghost var i;
      rp, i := TakeSame(kind);
      if rp != null {
        NodesMoved(old(Idle()), old(Busy()), i);
      }
    }

    /** omrpc_put_idle_rpc: the nodes stay in use. */
    method PutIdle(rp: Rpc, ghost i: nat)
      requires Valid() && i < |pool.busy| && pool.busy[i] == rp
      modifies pool, pool.idle`next, rp`next, rp`prev
      ensures Valid() && Idle() == old(Idle()) + [old(Busy())[i]] && Busy() == Without(old(Busy()), i)
    {
      NodesMoved(Busy(), Idle(), i);
      PutBack(rp, i);
    }
  }

  lemma FirstOf(s: seq<Rpc>, v: seq<Kind>, t: seq<Rpc>, i: nat)
    requires |s| == |v| && i < |s|
    ensures i == 0 ==> Without(s, i) == s[1..] && Without(v, i) == v[1..]
    ensures (set o | o in s[1..]) + (set o | o in [s[0]] + t) == (set o | o in s) + (set o | o in t)
  {
    assert s == [s[0]] + s[1..];
  }
}
