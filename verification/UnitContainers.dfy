/** The pool's free list and requeue list kept in the real stack and ring: whatever state the
    pool is in, no push hits its assertion and nothing is lost or reordered. */
module UnitContainers {
  import opened Options
  import opened IoUnits
  import opened UnitPool
  import opened UnitRuns
  import IoUQueue

  class Containers {
    const freelist: IoUQueue.Queue
    const requeues: IoUQueue.Ring

    /** Stack and ring hold the units the state says are on them. */
    ghost predicate Hold(td: Td)
      reads freelist, freelist.ious, requeues, requeues.ring
    {
      && freelist.Valid() && requeues.Valid()
      && freelist.max == |td.units| < requeues.max
      && freelist.Contents() == td.freelist && requeues.Contents() == td.requeues
    }

    /** The containers `init_io_u` sets up, with every unit on the stack. */
    constructor (c: Config)
      requires c.Ok()
      ensures Hold(Init(c)) && fresh(freelist) && fresh(freelist.ious) && fresh(requeues) && fresh(requeues.ring)
    {
      var q := new IoUQueue.Queue(c.iodepth);
      requeues := new IoUQueue.Ring(c.iodepth);
      freelist := q;
      new;
      var i: nat := 0;
      while i < c.iodepth
        invariant i <= c.iodepth && freelist.Valid() && fresh(freelist.ious) && freelist.max == c.iodepth
        invariant freelist.Contents() == seq(i, j => j)
        invariant requeues.Valid() && requeues.Contents() == [] && c.iodepth < requeues.max && fresh(requeues.ring)
      {
        var ok := freelist.Push(i);
        assert seq(i + 1, j => j) == seq(i, j => j) + [i];
        i := i + 1;
      }
    }

    /** The push of `put_io_u`. */
    method PutUnit(u: nat, ghost td: Td) returns (ok: bool)
      requires PoolInv(td) && Hold(td) && u < |td.units| && !td.units[u].free && FileInRange(td, u)
      modifies freelist, freelist.ious
      ensures ok && freelist.ious == old(freelist.ious) && Hold(Put(td, u))
    {
      HeldHasRoom(td, u);
      ok := freelist.Push(u);
    }

    /** The push of `requeue_io_u`. */
    method RequeueUnit(u: nat, ghost td: Td) returns (ok: bool)
      requires PoolInv(td) && Hold(td) && u < |td.units| && !td.units[u].free
      modifies requeues, requeues.ring
      ensures ok && requeues.ring == old(requeues.ring) && Hold(Requeue(td, u))
    {
      HeldHasRoom(td, u);
      ok := requeues.Push(u);
    }

    /** The two pops of `__get_io_u`; `atLimit` is its test of the depth limit. */
    method GetUnit(atLimit: bool, ghost td: Td) returns (got: Option<nat>)
      requires PoolInv(td) && Hold(td) && atLimit == (td.latencyQd.Some? && td.curDepth >= td.latencyQd.value)
      modifies freelist, freelist.ious, requeues
      ensures freelist.ious == old(freelist.ious) && requeues.ring == old(requeues.ring)
      ensures got == Get(td).1 && Hold(Get(td).0)
    {
      got := None;
      assert |td.freelist| == freelist.nr;
      if !requeues.Empty() {
        got := requeues.Pop();
        assert td.requeues == [got.value] + requeues.Contents();
        assert requeues.Contents() == td.requeues[1..] && td.requeues[0] == got.value;
      } else if freelist.nr != 0 && !atLimit {
        got := freelist.Pop();
        assert td.freelist == freelist.Contents() + [got.value];
        ghost var n := |td.freelist| - 1;
        assert freelist.Contents() == td.freelist[..n] && td.freelist[n] == got.value;
      }
    }
  }
}
