/** The two containers of fio's I/O-unit engine: the array stack behind the free list
    and the ring behind the requeue list. Units are named by their index. */
module IoUQueue {
  import opened Bits
  import opened Cyclic
  import opened Options

  /** `struct io_u_queue`: a bounded stack of units. */
  class Queue {
    var ious: array<Option<nat>>
    var nr: nat
    var max: nat

    ghost predicate Valid()
      reads this, ious
    {
      nr <= max == ious.Length && forall i :: 0 <= i < nr ==> ious[i].Some?
    }

    /** Units on the stack, bottom first. */
    ghost function Contents(): seq<nat>
      requires Valid()
      reads this, ious
    {
      seq(nr, i requires 0 <= i < nr && Valid() reads this, ious => ious[i].value)
    }

    constructor (nr: nat)
      ensures Valid() && fresh(ious) && max == nr && Contents() == []
    {
      ious := new Option<nat>[nr];
      this.nr := 0;
      max := nr;
    }

    method Pop() returns (u: Option<nat>)
      requires Valid()
      modifies this, ious
      ensures Valid() && ious == old(ious) && max == old(max)
      ensures old(Contents()) == [] ==> u == None && Contents() == []
      ensures old(Contents()) != [] ==> u.Some? && old(Contents()) == Contents() + [u.value]
    {
      u := None;
      if nr != 0 {
        nr := nr - 1;
        u := ious[nr];
        ious[nr] := None;
      }
    }

    /** `ok` is false where the source hits `assert(0)`. */
    method Push(u: nat) returns (ok: bool)
      requires Valid()
      modifies this, ious
      ensures Valid() && ious == old(ious) && max == old(max)
      ensures ok <==> |old(Contents())| < max
      ensures Contents() == if ok then old(Contents()) + [u] else old(Contents())
    {
      ok := nr < max;
      if ok {
        ious[nr] := Some(u);
        nr := nr + 1;
      }
    }
  }

  /** `m` is the least power of two that is at least `n`. */
  ghost predicate IsLeastPow2(m: nat, n: nat) {
    IsPow2(m) && n <= m && forall k: nat :: n <= Pow2(k) ==> m <= Pow2(k)
  }

  function Width(x: nat): (k: nat)
    ensures x < Pow2(k)
    ensures x > 0 ==> k > 0 && Pow2(k - 1) <= x
  {
    if x == 0 then 0 else Width(x / 2) + 1
  }

  lemma WidthAtMost32(x: nat)
    requires x < U32
    ensures Width(x) <= 32
  {
    Pow2Top();
    if Width(x) > 32 {
      Pow2Mono(32, Width(x) - 1);
    }
  }

  /** The five shift-or steps fill every bit below the leading one. */
  lemma SmearFills(x: nat)
    requires 1 <= x < U32
    ensures var s1 := Or(x, Shr(x, 1));
            var s2 := Or(s1, Shr(s1, 2));
            var s4 := Or(s2, Shr(s2, 4));
            var s8 := Or(s4, Shr(s4, 8));
            Or(s8, Shr(s8, 16)) == Pow2(Width(x)) - 1
  {
    var k := Width(x);
    WidthAtMost32(x);
    SmearDoubles(x, k, 1);
    var s1 := Or(x, Shr(x, 1));
    SmearOrDone(s1, k, 2);
    var s2 := Or(s1, Shr(s1, 2));
    SmearOrDone(s2, k, 4);
    var s4 := Or(s2, Shr(s2, 4));
    SmearOrDone(s4, k, 8);
    SmearOrDone(Or(s4, Shr(s4, 8)), k, 16);
  }

  /** A smearing step on a value whose leading `min(j, k)` bits are already ones. */
  lemma SmearOrDone(x: nat, k: nat, j: nat)
    requires j >= 1 && TopOnes(x, k, if j <= k then j else k)
    ensures TopOnes(Or(x, Shr(x, j)), k, if 2 * j <= k then 2 * j else k)
  {
    if j <= k {
      SmearDoubles(x, k, j);
    } else {
      Pow2Mono(k, j);
      ShrZero(x, j);
    }
  }

  lemma LeastPow2(n: nat, k: nat)
    requires k >= 1 && Pow2(k - 1) < n <= Pow2(k)
    ensures IsLeastPow2(Pow2(k), n)
  {
    forall j: nat | n <= Pow2(j) ensures Pow2(k) <= Pow2(j) {
      if j < k {
        Pow2Mono(j, k - 1);
      } else {
        Pow2Mono(k, j);
      }
    }
  }

  /** The shift-or steps of the rounding, each updating the same variable. */
  method FillBelow(x: nat) returns (max: nat)
    requires 1 <= x < U32
    ensures max == Pow2(Width(x)) - 1
  {
    max := x;
    max := Or(max, Shr(max, 1));
    max := Or(max, Shr(max, 2));
    max := Or(max, Shr(max, 4));
    max := Or(max, Shr(max, 8));
    max := Or(max, Shr(max, 16));
    SmearFills(x);
  }

  /** What `io_u_rinit` computes from `nr`, in 32-bit arithmetic: the least power of two
      that leaves one slot spare when `nr < 2^31`, and zero for every larger `nr`. */
  ghost predicate RingSizeFor(nr: nat, max: nat) {
    if nr < 0x8000_0000 then IsLeastPow2(max, nr + 1) else max == 0
  }

  method RingSize(nr: nat) returns (max: nat)
    requires nr < U32
    ensures RingSizeFor(nr, max)
  {
    max := (nr + 1) % U32;
    var pred := (max + U32 - 1) % U32;
    assert pred == nr;
    if And(max, pred) != 0 {
      assert nr >= 1 && max == nr + 1;
      max := FillBelow(max - 1);
      RoundedUp(nr);
      max := (max + 1) % U32;
    } else {
      ExactPowerKept(nr);
    }
  }

  lemma RoundedUp(nr: nat)
    requires 1 <= nr < U32
    ensures RingSizeFor(nr, Pow2(Width(nr)) % U32)
  {
    if nr < 0x8000_0000 {
      WidthSmall(nr);
      RoundedUpIsLeast(nr);
    } else {
      WidthLarge(nr);
    }
  }

  lemma RoundedUpIsLeast(nr: nat)
    requires 1 <= nr
    ensures IsLeastPow2(Pow2(Width(nr)), nr + 1)
  {
    LeastPow2(nr + 1, Width(nr));
  }

  lemma WidthSmall(nr: nat)
    requires 1 <= nr < 0x8000_0000
    ensures Pow2(Width(nr)) < U32
  {
    Pow2Top();
    if Width(nr) <= 31 {
      Pow2Mono(Width(nr), 31);
    } else {
      Pow2Mono(31, Width(nr) - 1);
    }
  }

  lemma WidthLarge(nr: nat)
    requires 0x8000_0000 <= nr < U32
    ensures Pow2(Width(nr)) == U32
  {
    Pow2Top();
    WidthAtMost32(nr);
    if Width(nr) <= 31 {
      Pow2Mono(Width(nr), 31);
    }
  }

  lemma ExactPowerKept(nr: nat)
    requires nr < U32 && And((nr + 1) % U32, nr) == 0
    ensures RingSizeFor(nr, (nr + 1) % U32)
  {
    if nr + 1 < U32 {
      AndPredIsPow2(nr + 1);
      var k: nat :| nr + 1 == Pow2(k);
      Pow2Top();
      if nr >= 0x8000_0000 {
        if k <= 31 { Pow2Mono(k, 31); } else { Pow2Mono(32, k); }
      }
    }
  }

  /** `struct io_u_ring`: a ring whose fullness test compares `head + 1` unmasked. */
  class Ring {
    var head: nat
    var tail: nat
    var max: nat
    var ring: array<nat>

    ghost predicate Valid()
      reads this, ring
    {
      IsPow2(max) && head < max && tail < max == ring.Length
    }

    ghost function Count(): nat
      requires Valid()
      reads this, ring
    {
      if tail <= head then head - tail else head + max - tail
    }

    /** Queued units, oldest first. */
    ghost function Contents(): seq<nat>
      requires Valid()
      reads this, ring
    {
      Window(ring[..], tail, Count())
    }

    constructor (nr: nat)
      requires nr < U32
      ensures fresh(ring)
      ensures nr < 0x8000_0000 ==> Valid() && Contents() == [] && nr < max
      ensures nr >= 0x8000_0000 ==> ring.Length == 0
    {
      var m := RingSize(nr);
      max := m;
      ring := new nat[m];
      head, tail := 0, 0;
    }

    predicate Empty()
      requires Valid()
      reads this, ring
      ensures Empty() <==> Contents() == []
    {
      head == tail
    }

    /** `ok` is false where the source hits `assert(0)`. A push appends its unit exactly
        when the ring holds fewer than `max - 1`; on a ring that is already full the test
        either stops it or, with the head on the last slot, empties the ring. */
    method Push(u: nat) returns (ok: bool)
      requires Valid()
      modifies this, ring
      ensures Valid() && ring == old(ring) && max == old(max)
      ensures |old(Contents())| + 1 < max ==> ok && Contents() == old(Contents()) + [u]
      ensures |old(Contents())| + 1 == max ==> (ok <==> old(head) + 1 == max)
      ensures |old(Contents())| + 1 == max && ok ==> Contents() == []
      ensures !ok ==> Contents() == old(Contents())
    {
      ok := head + 1 != tail;
      if ok {
        ring[head] := u;
        MaskedInside(head, max);
        MaskedStep(head, 1, max);
        head := Masked(head + 1, max);
      }
    }

    method Pop() returns (u: Option<nat>)
      requires Valid()
      modifies this
      ensures Valid() && ring == old(ring) && max == old(max)
      ensures old(Contents()) == [] ==> u == None && Contents() == []
      ensures old(Contents()) != [] ==> u.Some? && old(Contents()) == [u.value] + Contents()
    {
      u := None;
      if head != tail {
        u := Some(ring[tail]);
        MaskedInside(tail, max);
        MaskedStep(tail, 1, max);
        tail := Masked(tail + 1, max);
      }
    }
  }
}
