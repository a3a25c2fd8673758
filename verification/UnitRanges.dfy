/** Byte ranges in flight under `serialize_overlap`. */
module UnitRanges {
  import opened Bits
  import opened IoUnits
  import opened UnitPool
  import opened UnitFlight
  import opened UnitFiles

  predicate Apart(x: IoU, y: IoU) {
    x.offset + x.buflen <= y.offset || y.offset + y.buflen <= x.offset
  }

  /** What is left of a unit's transfer lies inside the range that is checked, and nothing
      overflows; a unit in flight has a file; only syncs borrow one. */
  predicate UnitOk(x: IoU) {
    && (x.rw && x.file.Some? ==> x.xfer <= x.buflen < LIMIT && x.offset + x.xfer <= LIMIT)
    && (x.flight ==> x.file.Some?)
    && (x.noPut && !x.free ==> x.file.Some? && !x.rw)
  }

  predicate Flying(x: IoU) {
    x.flight && x.rw
  }

  ghost predicate FlyingApart(units: seq<IoU>) {
    forall u: nat, v: nat :: u < |units| && v < |units| && u != v && Flying(units[u]) && Flying(units[v]) ==>
      Apart(units[u], units[v])
  }

  /** With `serialize_overlap`, reads, writes and trims in flight touch disjoint ranges. */
  ghost predicate RangeInv(td: Td) {
    && (forall u: nat :: u < |td.units| ==> UnitOk(td.units[u]))
    && (td.serialize ==> FlyingApart(td.units))
  }

  lemma GroundRange(td: Td, u: nat, x: IoU)
    requires RangeInv(td) && u < |td.units| && UnitOk(x) && !x.flight
    ensures RangeInv(With(td, u, x))
  {
  }

  lemma FlyRange(td: Td, u: nat)
    requires RangeInv(td) && u < |td.units| && td.units[u].file.Some?
    requires td.serialize && td.units[u].rw ==>
               forall v: nat :: v < |td.units| && v != u && Flying(td.units[v]) ==> Apart(td.units[u], td.units[v])
    ensures RangeInv(With(td, u, td.units[u].(flight := true)))
  {
  }

  /** Where nothing overflows, the 64-bit test finds exactly the ranges that are not apart. */
  lemma MeetIffNotApart(x: IoU, y: IoU)
    requires UnitOk(x) && UnitOk(y) && x.rw && y.rw && x.file.Some? && y.file.Some?
    ensures Meet(x, y) <==> !Apart(x, y)
  {
  }

  /** The shortcut: with one unit held, no other is in flight. */
  lemma AloneInDepth(td: Td, extra: set<nat>, u: nat, v: nat)
    requires PoolInv(td) && FlightInv(td, extra) && u < |td.units| && v < |td.units| && u != v
    requires !td.units[u].free && td.curDepth <= 1
    ensures !td.units[v].flight
  {
    if td.units[v].flight {
      assert {u, v} <= Held(td.units);
      SubsetSize({u, v}, Held(td.units));
    }
  }

  /** Either way a unit that passes `io_u_submit`'s test meets nothing in flight. */
  lemma PassMeetsNone(td: Td, u: nat, v: nat)
    requires PoolInv(td) && FlightInv(td, {}) && RangeInv(td) && u < |td.units| && v < |td.units| && u != v
    requires !td.units[u].free && td.units[u].rw && td.units[u].file.Some? && Flying(td.units[v])
    requires td.curDepth <= 1 || !Overlap(td, u)
    ensures Apart(td.units[u], td.units[v])
  {
    if td.curDepth <= 1 {
      AloneInDepth(td, {}, u, v);
    } else {
      MeetIffNotApart(td.units[u], td.units[v]);
    }
  }

  lemma GetRange(td: Td)
    requires RangeInv(td) && PoolInv(td) && PlacesOk(td)
    ensures RangeInv(Get(td).0)
  {
    if td.requeues != [] {
      var u := td.requeues[0];
      assert u in td.requeues;
    } else if !QueueFull(td) {
      var u := td.freelist[|td.freelist| - 1];
      assert u in td.freelist;
    }
  }
}
