/** Where the units are, and what `cur_depth` counts. */
module UnitPool {
  import opened Options
  import opened IoUnits
  import IoUQueue

  function Held(units: seq<IoU>): set<nat> {
    set u: nat | u < |units| && !units[u].free
  }

  ghost predicate Distinct(s: seq<nat>) {
    forall i, j :: 0 <= i < j < |s| ==> s[i] != s[j]
  }

  /** Every unit is in exactly one of free stack, requeue ring and held, and `cur_depth`
      counts the held ones. */
  ghost predicate PoolInv(td: Td) {
    && Distinct(td.freelist) && Distinct(td.requeues)
    && InRange(td) && (forall u :: u in td.freelist ==> u !in td.requeues)
    && (forall u: nat :: u < |td.units| ==> (td.units[u].free <==> u in td.freelist || u in td.requeues))
    && (forall u: nat :: u < |td.units| ==> td.units[u].free || td.units[u].inDepth)
    && td.curDepth == |Held(td.units)|
  }

  lemma HeldUpdate(units: seq<IoU>, u: nat, x: IoU)
    requires u < |units|
    ensures Held(units[u := x]) == if x.free then Held(units) - {u} else Held(units) + {u}
    ensures |Held(units[u := x])| == |Held(units)| + (if x.free == units[u].free then 0 else if x.free then -1 else 1)
  {
    var s, s' := Held(units), Held(units[u := x]);
    forall v: nat
      ensures v in s' <==> if v == u then !x.free else v in s
    {
    }
    if x.free {
      assert s' == s - {u};
    } else {
      assert s' == s + {u};
    }
  }

  /** Changes to a unit that leave its place alone. */
  lemma PoolUpdate(td: Td, u: nat, x: IoU)
    requires PoolInv(td) && u < |td.units| && x.free == td.units[u].free && x.inDepth == td.units[u].inDepth
    ensures PoolInv(With(td, u, x))
  {
    HeldUpdate(td.units, u, x);
  }

  lemma PutPool(td: Td, u: nat)
    requires PoolInv(td) && u < |td.units| && !td.units[u].free && FileInRange(td, u)
    ensures PoolInv(Put(td, u))
  {
    HeldUpdate(td.units, u, Put(td, u).units[u]);
  }

  lemma RequeuePool(td: Td, u: nat)
    requires PoolInv(td) && u < |td.units| && !td.units[u].free
    ensures PoolInv(Requeue(td, u))
  {
    HeldUpdate(td.units, u, Requeue(td, u).units[u]);
  }

  lemma DropFirst(s: seq<nat>)
    requires Distinct(s) && s != []
    ensures Distinct(s[1..]) && forall u: nat :: u in s[1..] <==> u in s && u != s[0]
  {
    assert s == [s[0]] + s[1..];
  }

  lemma DropLast(s: seq<nat>)
    requires Distinct(s) && s != []
    ensures Distinct(s[..|s| - 1]) && forall u: nat :: u in s[..|s| - 1] <==> u in s && u != s[|s| - 1]
  {
    assert s == s[..|s| - 1] + [s[|s| - 1]];
  }

  lemma TakeRequeuedPool(td: Td)
    requires PoolInv(td) && td.requeues != []
    ensures PoolInv(TakeRequeued(td))
  {
    var u := td.requeues[0];
    assert u in td.requeues;
    DropFirst(td.requeues);
    var td' := TakeRequeued(td);
    assert td'.units == td.units[u := td'.units[u]];
    HeldUpdate(td.units, u, td'.units[u]);
  }

  lemma TakeFreePool(td: Td)
    requires PoolInv(td) && td.freelist != []
    ensures PoolInv(TakeFree(td))
  {
    var u := td.freelist[|td.freelist| - 1];
    assert u in td.freelist;
    DropLast(td.freelist);
    var td' := TakeFree(td);
    assert td'.units == td.units[u := td'.units[u]];
    HeldUpdate(td.units, u, td'.units[u]);
    forall v | v in td'.freelist
      ensures v < |td'.units| && v !in td'.requeues
    {
      assert v in td.freelist;
    }
  }

  lemma GetPool(td: Td)
    requires PoolInv(td)
    ensures PoolInv(Get(td).0)
  {
    if td.requeues != [] {
      TakeRequeuedPool(td);
    } else if !QueueFull(td) {
      TakeFreePool(td);
    }
  }

  /** The state after taking `k` units. */
  function Takes(td: Td, k: nat): (td': Td)
    requires PoolInv(td)
    ensures PoolInv(td')
    decreases k
  {
    if k == 0 then td
    else
      GetPool(td);
      Takes(Get(td).0, k - 1)
  }

  /** Requeued units are taken again in the order they were requeued, ahead of every unit on
      the free stack, and whatever the depth limit is. */
  lemma {:induction false} RequeuedFirstInOrder(td: Td, k: nat)
    requires PoolInv(td) && k < |td.requeues|
    ensures Get(Takes(td, k)).1 == Some(td.requeues[k]) && Takes(td, k).freelist == td.freelist
    decreases k
  {
    if k > 0 {
      GetPool(td);
      RequeuedFirstInOrder(Get(td).0, k - 1);
    }
  }

  ghost function Below(n: nat): (s: set<nat>)
    ensures |s| == n && forall u: nat :: u in s <==> u < n
  {
    if n == 0 then {} else Below(n - 1) + {n - 1}
  }

  function Elements(s: seq<nat>): set<nat> {
    set u | u in s
  }

  lemma {:induction false} DistinctSize(s: seq<nat>)
    requires Distinct(s)
    ensures |Elements(s)| == |s|
  {
    if s != [] {
      var rest := s[..|s| - 1];
      DropLast(s);
      DistinctSize(rest);
      assert Elements(s) == Elements(rest) + {s[|s| - 1]};
    }
  }

  /** Free, requeued and held units add up to the pool. */
  lemma PoolAddsUp(td: Td)
    requires PoolInv(td)
    ensures |td.freelist| + |td.requeues| + td.curDepth == |td.units|
  {
    var free, again, held := Elements(td.freelist), Elements(td.requeues), Held(td.units);
    DistinctSize(td.freelist);
    DistinctSize(td.requeues);
    forall u: nat
      ensures u < |td.units| <==> u in free || u in again || u in held
    {
    }
    Partition(|td.units|, free, again, held);
  }

  lemma Partition(n: nat, a: set<nat>, b: set<nat>, c: set<nat>)
    requires a !! b && (a + b) !! c && forall u: nat :: u < n <==> u in a || u in b || u in c
    ensures |a| + |b| + |c| == n
  {
    assert Below(n) == a + b + c;
  }

  /** Whenever a held unit is returned there is room for it on the free stack, and for one
      requeued on a ring of `iodepth` places. */
  lemma HeldHasRoom(td: Td, u: nat)
    requires PoolInv(td) && u < |td.units| && !td.units[u].free
    ensures td.curDepth > 0 && |td.freelist| < |td.units| && |td.requeues| < |td.units|
  {
    PoolAddsUp(td);
    assert u in Held(td.units);
  }

  /** The ring that `io_u_rinit` makes for the pool therefore never fills up. */
  lemma RingNeverFills(td: Td, u: nat, max: nat)
    requires PoolInv(td) && u < |td.units| < 0x8000_0000 && !td.units[u].free && IoUQueue.RingSizeFor(|td.units|, max)
    ensures |td.requeues| + 1 < max
  {
    HeldHasRoom(td, u);
  }
}
