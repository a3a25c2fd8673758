/** Which units the engine owes, and what the two in-flight counters add up to. */
module UnitFlight {
  import opened Bits
  import opened IoUnits
  import opened UnitPool

  /** FLIGHT marks exactly the units the engine owes and those in `extra`, which it has just
      handed back. The two counters together give the number owed, whatever their values. */
  ghost predicate FlightInv(td: Td, extra: set<nat>) {
    && |td.units| < U32 && td.queued < U32 && td.inFlight < U32
    && (td.inFlight + td.queued) % U32 == |td.engine|
    && td.engine !! extra
    && (forall u :: u in td.engine ==> u < |td.units|)
    && (forall u: nat :: u < |td.units| ==> (td.units[u].flight <==> u in td.engine || u in extra))
    && (forall u: nat :: u < |td.units| ==> td.units[u].flight ==> !td.units[u].free)
  }

  lemma OwedFewer(td: Td, extra: set<nat>, u: nat)
    requires FlightInv(td, extra) && u < |td.units| && u !in td.engine
    ensures |td.engine| + 1 < U32
  {
    assert u in Below(|td.units|);
    SubsetSize(td.engine, Below(|td.units|));
  }

  lemma CommitFlight(td: Td, extra: set<nat>)
    requires FlightInv(td, extra)
    ensures FlightInv(Commit(td), extra)
  {
  }

  /** A unit the engine does not hold is taken out of flight. */
  lemma LandFlight(td: Td, extra: set<nat>, u: nat, x: IoU)
    requires FlightInv(td, extra) && u < |td.units| && u !in td.engine && !x.flight
    ensures FlightInv(With(td, u, x), extra - {u})
  {
  }

  lemma PutFlight(td: Td, extra: set<nat>, u: nat)
    requires FlightInv(td, extra) && u < |td.units| && !td.units[u].flight && FileInRange(td, u)
    ensures FlightInv(Put(td, u), extra)
  {
  }

  lemma RequeueFlight(td: Td, extra: set<nat>, u: nat)
    requires FlightInv(td, extra) && u < |td.units| && u !in td.engine
    ensures FlightInv(Requeue(td, u), extra - {u})
  {
    LandFlight(td, extra, u, Requeue(td, u).units[u]);
  }

  lemma GetFlight(td: Td, extra: set<nat>)
    requires FlightInv(td, extra) && PoolInv(td)
    ensures FlightInv(Get(td).0, extra)
  {
    if td.requeues != [] {
      assert td.requeues[0] in td.requeues;
    } else if !QueueFull(td) {
      assert td.freelist[|td.freelist| - 1] in td.freelist;
    }
  }

  lemma AcceptFlight(td: Td, extra: set<nat>, u: nat)
    requires FlightInv(td, extra) && u < |td.units| && !td.units[u].flight && !td.units[u].free
    ensures FlightInv(Accepted(td, u), extra)
  {
    OwedFewer(td, extra, u);
    CountOne(td.inFlight, td.queued, |td.engine|);
  }

  lemma FlyFlight(td: Td, extra: set<nat>, u: nat)
    requires FlightInv(td, extra) && u < |td.units| && !td.units[u].flight && !td.units[u].free
    ensures FlightInv(With(td, u, td.units[u].(flight := true)), extra + {u})
  {
  }

  lemma QueueFlight(td: Td, extra: set<nat>, u: nat, a: Answer)
    requires FlightInv(td, extra) && u < |td.units| && !td.units[u].flight && !td.units[u].free
    ensures FlightInv(Queue(td, u, a), if a.Completed? || (a.Busy? && !td.units[u].rw) then extra + {u} else extra)
  {
    match a
    case Completed(_, _) => FlyFlight(td, extra, u);
    case Queued =>
      AcceptFlight(td, extra, u);
      CommitFlight(Accepted(td, u), extra);
    case Busy =>
      if td.units[u].rw {
        assert td.units[u := td.units[u].(flight := false)] == td.units;
      } else {
        FlyFlight(td, extra, u);
      }
  }

  lemma CountOne(a: nat, b: nat, n: nat)
    requires (a + b) % U32 == n && n + 1 < U32
    ensures (a + (b + 1) % U32) % U32 == n + 1
  {
  }
}
