/** The pools of RPC objects: the idle queue, a doubly linked list changed in place, and the
free list that shares its links. */
module RpcPool {
  /** omrpc_rpc_t: links, and what the schedulers look at. */
  class Rpc {
    var prev: Rpc?
    var next: Rpc?
    var module_: int
    var host: int
    var nprocs: nat

    constructor ()
      ensures prev == null && next == null && module_ == 0 && host == 0 && nprocs == 0
    {
      prev, next, module_, host, nprocs := null, null, 0, 0, 0;
    }
  }

  predicate Distinct(s: seq<Rpc>) {
    forall i, j | 0 <= i < j < |s| :: s[i] != s[j]
  }

  predicate Apart(s: seq<Rpc>, t: seq<Rpc>) {
    forall i, j | 0 <= i < |s| && 0 <= j < |t| :: s[i] != t[j]
  }

  predicate Absent(o: Rpc, s: seq<Rpc>) {
    forall k | 0 <= k < |s| :: s[k] != o
  }

  /** The element at `i`, or null outside. */
  function At(s: seq<Rpc>, i: int): Rpc? {
    if 0 <= i < |s| then s[i] else null
  }

  /** `next` links a list from front to back. */
  ghost predicate LinkedForward(s: seq<Rpc>)
    reads s`next
  {
    forall k {:trigger s[k].next} | 0 <= k < |s| :: s[k].next == At(s, k + 1)
  }

  ghost predicate LinkedBack(s: seq<Rpc>)
    reads s`prev
  {
    forall k {:trigger s[k].prev} | 0 <= k < |s| :: s[k].prev == At(s, k - 1)
  }

  function Without<T>(s: seq<T>, i: nat): (r: seq<T>)
    requires i < |s|
    ensures |r| == |s| - 1 && forall k | 0 <= k < |r| :: r[k] == if k < i then s[k] else s[k + 1]
  {
    s[..i] + s[i + 1..]
  }

  /** Every object is in exactly one of three lists, once. */
  predicate Partition(a: seq<Rpc>, b: seq<Rpc>, c: seq<Rpc>) {
    Distinct(a + b + c)
  }

  lemma Parts(a: seq<Rpc>, b: seq<Rpc>, c: seq<Rpc>)
    requires Partition(a, b, c)
    ensures Distinct(a) && Distinct(b) && Distinct(c)
    ensures Apart(a, b) && Apart(a, c) && Apart(b, c)
  {
    var all := a + b + c;
    forall i | 0 <= i < |a| ensures a[i] == all[i] {}
    forall i | 0 <= i < |b| ensures b[i] == all[|a| + i] {}
    forall i | 0 <= i < |c| ensures c[i] == all[|a| + |b| + i] {}
  }

  lemma Whole(a: seq<Rpc>, b: seq<Rpc>, c: seq<Rpc>)
    requires Distinct(a) && Distinct(b) && Distinct(c)
    requires Apart(a, b) && Apart(a, c) && Apart(b, c)
    ensures Partition(a, b, c)
  {
  }

  lemma Taken(s: seq<Rpc>, i: nat)
    requires i < |s| && Distinct(s)
    ensures Distinct(Without(s, i)) && Absent(s[i], Without(s, i))
  {
  }

  lemma Added(s: seq<Rpc>, o: Rpc)
    requires Distinct(s) && Absent(o, s)
    ensures Distinct(s + [o]) && Distinct([o] + s)
  {
  }

  lemma TakenApart(s: seq<Rpc>, i: nat, t: seq<Rpc>)
    requires i < |s| && (Apart(s, t) || Apart(t, s))
    ensures Apart(Without(s, i), t) && Apart(t, Without(s, i)) && Absent(s[i], t)
  {
  }

  lemma AddedApart(s: seq<Rpc>, o: Rpc, t: seq<Rpc>)
    requires Absent(o, t) && (Apart(s, t) || Apart(t, s))
    ensures Apart(s + [o], t) && Apart(t, s + [o]) && Apart([o] + s, t) && Apart(t, [o] + s)
  {
  }

  /** From the queue into use. */
  lemma IdleToBusy(a: seq<Rpc>, b: seq<Rpc>, c: seq<Rpc>, i: nat)
    requires Partition(a, b, c) && i < |a|
    ensures Partition(Without(a, i), b, c + [a[i]])
  {
    Parts(a, b, c);
    Taken(a, i);
    TakenApart(a, i, b);
    TakenApart(a, i, c);
    Added(c, a[i]);
    AddedApart(c, a[i], b);
    AddedApart(c, a[i], Without(a, i));
    Whole(Without(a, i), b, c + [a[i]]);
  }

  /** From use into the queue, or onto the free list. */
  lemma BusyToOthers(a: seq<Rpc>, b: seq<Rpc>, c: seq<Rpc>, i: nat)
    requires Partition(a, b, c) && i < |c|
    ensures Partition(a + [c[i]], b, Without(c, i)) && Partition(a, [c[i]] + b, Without(c, i))
    ensures Absent(c[i], a) && Absent(c[i], b)
  {
    var r := Without(c, i);
    Parts(a, b, c);
    Taken(c, i);
    TakenApart(c, i, a);
    TakenApart(c, i, b);
    Added(a, c[i]);
    AddedApart(a, c[i], b);
    AddedApart(a, c[i], r);
    Whole(a + [c[i]], b, r);
    Added(b, c[i]);
    AddedApart(b, c[i], a);
    AddedApart(b, c[i], r);
    Whole(a, [c[i]] + b, r);
  }

  /** From the free list, or from nowhere, into use. */
  lemma FreedToBusy(a: seq<Rpc>, b: seq<Rpc>, c: seq<Rpc>)
    requires Partition(a, b, c) && b != []
    ensures Partition(a, b[1..], c)
    ensures Absent(b[0], a) && Absent(b[0], b[1..]) && Absent(b[0], c)
  {
    Parts(a, b, c);
    Taken(b, 0);
    TakenApart(b, 0, a);
    TakenApart(b, 0, c);
    assert Without(b, 0) == b[1..];
    Whole(a, b[1..], c);
  }

  lemma NewToBusy(a: seq<Rpc>, b: seq<Rpc>, c: seq<Rpc>, o: Rpc)
    requires Partition(a, b, c) && Absent(o, a) && Absent(o, b) && Absent(o, c)
    ensures Partition(a, b, c + [o])
  {
    Parts(a, b, c);
    Added(c, o);
    AddedApart(c, o, a);
    AddedApart(c, o, b);
    Whole(a, b, c + [o]);
  }

  lemma LinkedTail(s: seq<Rpc>)
    requires s != [] && LinkedForward(s)
    ensures LinkedForward(s[1..]) && s[0].next == At(s[1..], 0)
  {
    forall k | 0 <= k < |s| - 1 ensures s[1..][k].next == At(s[1..], k + 1) {
      assert s[1..][k] == s[k + 1] && At(s[1..], k + 1) == At(s, k + 2);
    }
  }

  lemma LinkedCons(o: Rpc, s: seq<Rpc>)
    requires LinkedForward(s) && o.next == At(s, 0)
    ensures LinkedForward([o] + s)
  {
    var all := [o] + s;
    forall k | 0 <= k < |all| ensures all[k].next == At(all, k + 1) {
      assert At(all, k + 1) == At(s, k);
      if k > 0 {
        assert all[k] == s[k - 1];
      }
    }
  }

  /** The list `s` continues with `o`. */
  ghost predicate Extended(s: seq<Rpc>, o: Rpc)
    reads s`next, s`prev, o`next, o`prev
  {
    && (forall k {:trigger s[k].next} | 0 <= k < |s| :: s[k].next == if k + 1 == |s| then o else At(s, k + 1))
    && LinkedBack(s) && o.next == null && o.prev == At(s, |s| - 1)
  }

  lemma LinkedSnoc(s: seq<Rpc>, o: Rpc)
    requires Extended(s, o)
    ensures LinkedForward(s + [o]) && LinkedBack(s + [o])
  {
    var all := s + [o];
    forall k | 0 <= k < |all| ensures all[k].next == At(all, k + 1) && all[k].prev == At(all, k - 1) {
      if k < |s| {
        assert all[k] == s[k];
      }
    }
  }

  /** The links around the `i`-th element pass it by. */
  ghost predicate NextPassed(s: seq<Rpc>, i: nat)
    requires i < |s|
    reads s`next
  {
    forall k {:trigger s[k].next} | 0 <= k < |s| && k != i :: s[k].next == if k + 1 == i then At(s, i + 1) else At(s, k + 1)
  }

  ghost predicate PrevPassed(s: seq<Rpc>, i: nat)
    requires i < |s|
    reads s`prev
  {
    forall k {:trigger s[k].prev} | 0 <= k < |s| && k != i :: s[k].prev == if k - 1 == i then At(s, i - 1) else At(s, k - 1)
  }

  lemma LinkedWithout(s: seq<Rpc>, i: nat)
    requires i < |s| && NextPassed(s, i) && PrevPassed(s, i)
    ensures LinkedForward(Without(s, i)) && LinkedBack(Without(s, i))
  {
    var r := Without(s, i);
    forall k | 0 <= k < |r| ensures r[k].next == At(r, k + 1) && r[k].prev == At(r, k - 1) {
      var j := if k < i then k else k + 1;
      assert r[k] == s[j];
    }
  }

  /** What a search of the idle queue looks for. */
  datatype Want =
    | Same(module_: int, nprocs: nat)
    | Other(host: int, module_: int)
    | OnHost(host: int)
    | OtherShape(module_: int, nprocs: nat)

  /** What an object stands for: a remote executable, its host, module and processes. */
  datatype Exe = Exe(host: int, module_: int, nprocs: nat)

  function ExeOf(o: Rpc): Exe
    reads o`host, o`module_, o`nprocs
  {
    Exe(o.host, o.module_, o.nprocs)
  }

  function Exes(s: seq<Rpc>): (r: seq<Exe>)
    reads s`host, s`module_, s`nprocs
    ensures |r| == |s| && forall k {:trigger r[k]} | 0 <= k < |s| :: r[k] == Exe(s[k].host, s[k].module_, s[k].nprocs)
  {
    if s == [] then [] else [ExeOf(s[0])] + Exes(s[1..])
  }

  lemma ExesAre(s: seq<Rpc>, v: seq<Exe>)
    requires |v| == |s| && forall k | 0 <= k < |s| :: v[k] == Exe(s[k].host, s[k].module_, s[k].nprocs)
    ensures Exes(s) == v
  {
  }

  lemma ExesAppend(s: seq<Rpc>, o: Rpc)
    ensures Exes(s + [o]) == Exes(s) + [ExeOf(o)]
  {
    ExesAre(s + [o], Exes(s) + [ExeOf(o)]);
  }

  lemma ExesWithout(s: seq<Rpc>, i: nat)
    requires i < |s|
    ensures Exes(Without(s, i)) == Without(Exes(s), i)
  {
    ExesAre(Without(s, i), Without(Exes(s), i));
  }

  /** The conditions of omrpc_get_idle_rpc, omrpc_get_victim_idle_rpc (with a module, and with
      NULL, which no module is) and, for the one host that spawns by MPI,
      omrpcm_get_victim_idle_rpc. */
  predicate Fits(e: Exe, want: Want) {
    match want
    case Same(m, n) => e.nprocs == n && e.module_ == m
    case Other(h, m) => e.host == h && e.module_ != m
    case OnHost(h) => e.host == h
    case OtherShape(m, n) => e.module_ != m || (e.module_ == m && e.nprocs != n)
  }

  predicate Suits(o: Rpc, want: Want)
    reads o`host, o`module_, o`nprocs
  {
    Fits(ExeOf(o), want)
  }

  /** The executables of a list are the ones they were. */
  twostate predicate SameAs(s: seq<Rpc>)
    reads s`nprocs, s`module_, s`host
  {
    forall k {:trigger s[k].nprocs} {:trigger s[k].module_} {:trigger s[k].host} | 0 <= k < |s| ::
      s[k].nprocs == old(s[k].nprocs) && s[k].module_ == old(s[k].module_) && s[k].host == old(s[k].host)
  }

  class Pool {
    var head: Rpc?
    var tail: Rpc?
    var free: Rpc?

    /** The idle queue in order, the free list, and the objects in use. */
    ghost var idle: seq<Rpc>
    ghost var freed: seq<Rpc>
    ghost var busy: seq<Rpc>

    /** The objects that are not in use. */
    ghost function Stored(): set<Rpc>
      reads this
    {
      (set o | o in idle) + (set o | o in freed)
    }

    /** The tail is meaningless while the queue is empty. */
    ghost predicate Valid()
      reads this, idle`next, idle`prev, freed`next
    {
      && Partition(idle, freed, busy)
      && head == At(idle, 0)
      && (idle != [] ==> tail == idle[|idle| - 1])
      && LinkedForward(idle) && LinkedBack(idle)
      && free == At(freed, 0) && LinkedForward(freed)
    }

    /** omrpc_rpc_init. */
    constructor ()
      ensures Valid() && idle == [] && freed == [] && busy == []
    {
      head, tail, free := null, null, null;
      idle, freed, busy := [], [], [];
    }

    /** omrpc_new_rpc: from the free list if it has one, cleared. */
    method NewRpc() returns (rp: Rpc)
      requires Valid()
      modifies this`free, this`freed, this`busy, freed
      ensures Valid() && busy == old(busy) + [rp]
      ensures if old(freed) == [] then freed == [] && fresh(rp) else rp == old(freed)[0] && freed == old(freed)[1..]
      ensures rp.module_ == 0 && rp.host == 0 && rp.nprocs == 0
      ensures Absent(rp, idle) && Absent(rp, freed) && Absent(rp, old(busy))
      ensures SameAs(idle) && SameAs(old(busy))
    {
      Parts(idle, freed, busy);
      if free == null {
        rp := new Rpc();
        AddBusy(rp);
      } else {
        rp := TakeFree();
        rp.prev, rp.next, rp.module_, rp.host, rp.nprocs := null, null, 0, 0, 0;
        AddBusy(rp);
      }
    }

    /** A new object with what the schedulers set in it. */
    method NewRpcFor(host: int, module_: int, nprocs: nat) returns (rp: Rpc)
      requires Valid()
      modifies this`free, this`freed, this`busy, freed
      ensures Valid() && busy == old(busy) + [rp]
      ensures rp.module_ == module_ && rp.host == host && rp.nprocs == nprocs
      ensures fresh(rp) || rp in old(freed)
      ensures SameAs(idle) && SameAs(old(busy))
    {
      rp := NewRpc();
      rp.host := host;
      rp.module_ := module_;
      rp.nprocs := nprocs;
    }

    /** An object that is nowhere else comes into use. */
    ghost method AddBusy(rp: Rpc)
      requires Valid() && Absent(rp, idle) && Absent(rp, freed) && Absent(rp, busy)
      modifies this`busy
      ensures Valid() && busy == old(busy) + [rp]
    {
      NewToBusy(idle, freed, busy, rp);
      busy := busy + [rp];
    }

    /** `free_rpc_obj = rp->next`. */
    method TakeFree() returns (rp: Rpc)
      requires Valid() && free != null
      modifies this`free, this`freed
      ensures Valid() && rp == old(freed)[0] && freed == old(freed)[1..]
      ensures Absent(rp, idle) && Absent(rp, freed) && Absent(rp, busy)
    {
      rp := free;
      LinkedTail(freed);
      FreedToBusy(idle, freed, busy);
      free := rp.next;
      freed := freed[1..];
    }

    /** omrpc_delete_rpc. */
    method DeleteRpc(rp: Rpc, ghost i: nat)
      requires Valid() && i < |busy| && busy[i] == rp
      modifies this`free, this`freed, this`busy, rp`next
      ensures Valid() && busy == Without(old(busy), i) && freed == [rp] + old(freed)
      ensures Absent(rp, idle) && Absent(rp, busy)
    {
      Parts(idle, freed, busy);
      BusyToOthers(idle, freed, busy, i);
      busy := Without(busy, i);
      rp.next := free;
      LinkedCons(rp, freed);
      free := rp;
      freed := [rp] + freed;
    }

    /** omrpc_delete_rpc and the `rp->nprocs = 0` that follows it when a victim is killed. */
    method DeleteVictim(rp: Rpc, ghost i: nat)
      requires Valid() && i < |busy| && busy[i] == rp
      modifies this`free, this`freed, this`busy, rp`next, rp`nprocs
      ensures Valid() && busy == Without(old(busy), i) && freed == [rp] + old(freed)
      ensures SameAs(idle) && SameAs(Without(old(busy), i))
    {
      DeleteRpc(rp, i);
      rp.nprocs := 0;
    }

    /** omrpc_queue_put: an object in use goes to the end of the queue. */
    method QueuePut(rp: Rpc, ghost i: nat)
      requires Valid() && i < |busy| && busy[i] == rp
      modifies this`head, this`tail, this`idle, this`busy, rp`next, rp`prev, idle`next
      ensures Valid() && idle == old(idle) + [rp] && busy == Without(old(busy), i)
    {
      BusyToOthers(idle, freed, busy, i);
      Link(rp);
      LinkedSnoc(idle, rp);
      busy := Without(busy, i);
      idle := idle + [rp];
    }

    /** The pointer updates of omrpc_queue_put. */
    method Link(rp: Rpc)
      requires Valid() && Absent(rp, idle) && Absent(rp, freed)
      modifies this`head, this`tail, rp`next, rp`prev, idle`next
      ensures Extended(idle, rp) && LinkedForward(freed)
      ensures head == At(idle + [rp], 0) && tail == rp
    {
      Parts(idle, freed, busy);
      if head == null {
        head := rp;
        tail := rp;
        rp.prev := null;
        rp.next := null;
      } else {
        tail.next := rp;
        rp.prev := tail;
        rp.next := null;
        tail := rp;
      }
    }

    /** omrpc_queue_remove: the `i`-th object of the queue comes into use. */
    method QueueRemove(rp: Rpc, ghost i: nat)
      requires Valid() && i < |idle| && idle[i] == rp
      modifies this`head, this`tail, this`idle, this`busy, idle`next, idle`prev
      ensures Valid() && idle == Without(old(idle), i) && busy == old(busy) + [rp]
    {
      Parts(idle, freed, busy);
      if rp == head {
        UnlinkHead(rp);
      } else if rp == tail {
        UnlinkTail(rp);
      } else {
        UnlinkMiddle(rp, i);
      }
      Forget(rp, i);
    }

    /** The objects of the queue and the free list, linked, and no object twice. */
    ghost predicate Listed()
      reads this`idle, this`freed, idle`next, idle`prev, freed`next
    {
      Distinct(idle) && Apart(idle, freed) && LinkedForward(idle) && LinkedBack(idle) && LinkedForward(freed)
    }

    /** The links of the queue pass its `i`-th object by. */
    ghost predicate Unlinked(i: nat)
      reads this`idle, this`freed, idle`next, idle`prev, freed`next
    {
      i < |idle| && NextPassed(idle, i) && PrevPassed(idle, i) && LinkedForward(freed)
    }

    method UnlinkHead(rp: Rpc)
      requires Listed() && idle != [] && rp == idle[0]
      modifies this`head, idle`prev
      ensures Unlinked(0) && head == At(idle, 1)
    {
      head := rp.next;
      if rp.next != null {
        rp.next.prev := null;
      }
    }

    method UnlinkTail(rp: Rpc)
      requires Listed() && |idle| > 1 && rp == idle[|idle| - 1]
      modifies this`tail, idle`next
      ensures Unlinked(|idle| - 1) && tail == idle[|idle| - 2]
    {
      tail := rp.prev;
      if rp.prev != null {
        rp.prev.next := null;
      }
    }

    method UnlinkMiddle(rp: Rpc, ghost i: nat)
      requires Listed() && 0 < i < |idle| - 1 && rp == idle[i]
      modifies idle`next, idle`prev
      ensures Unlinked(i)
    {
      rp.prev.next := rp.next;
      rp.next.prev := rp.prev;
    }

    /** The queue is what its links now say. */
    ghost method Forget(rp: Rpc, i: nat)
      requires Unlinked(i) && rp == idle[i] && Partition(idle, freed, busy)
      requires head == if i == 0 then At(idle, 1) else idle[0]
      requires |idle| > 1 ==> tail == if i == |idle| - 1 then idle[i - 1] else idle[|idle| - 1]
      requires free == At(freed, 0)
      modifies this`idle, this`busy
      ensures Valid() && idle == Without(old(idle), i) && busy == old(busy) + [rp]
    {
      LinkedWithout(idle, i);
      IdleToBusy(idle, freed, busy, i);
      busy := busy + [rp];
      idle := Without(idle, i);
    }

    /** The search for the first object in the queue that suits, which comes into use. */
    method Take(want: Want) returns (rp: Rpc?, ghost i: nat)
      requires Valid()
      modifies this`head, this`tail, this`idle, this`busy, idle`next, idle`prev
      ensures Valid() && i <= |old(idle)| && (rp == null <==> i == |old(idle)|)
      ensures forall k | 0 <= k < i :: !old(Suits(idle[k], want))
      ensures rp == null ==> idle == old(idle) && busy == old(busy)
      ensures rp != null ==> rp == old(idle)[i] && old(Suits(idle[i], want))
      ensures rp != null ==> idle == Without(old(idle), i) && busy == old(busy) + [rp]
    {
      rp, i := head, 0;
      while rp != null
        invariant i <= |idle| && rp == At(idle, i)
        invariant forall k | 0 <= k < i :: !Suits(idle[k], want)
        decreases |idle| - i
      {
        if Suits(rp, want) {
          QueueRemove(rp, i);
          return;
        }
        rp := rp.next;
        i := i + 1;
      }
    }
  }
}
