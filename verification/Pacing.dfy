/** Linear rate pacing: the time at which a direction may issue again, the choice of
    direction, and the bytes a whole run can have issued by a given time. Times are
    microseconds since the job's epoch. */
module Pacing {
  import opened Bits
  import opened Options

  const USEC: nat := 1000000
  const DIRS: nat := 3

  /** The linear branch of `usec_for_io`, in 64-bit arithmetic; no rate means no delay. */
  function UsecFor(bytes: nat, bps: nat): nat {
    if bps == 0 then 0
    else
      var (secs, rest) := DivMod(bytes, bps);
      Add64(DivMod(Low64(rest * USEC), bps).0, Low64(secs * USEC))
  }

  /** The exact time, floor(bytes * 10^6 / bps). */
  ghost function Exact(bytes: nat, bps: nat): nat
    requires bps > 0
  {
    bytes * USEC / bps
  }

  lemma ExactQuotient(bytes: nat, bps: nat)
    requires bps > 0
    ensures Exact(bytes, bps) == DivMod(bytes * USEC, bps).0
    ensures Exact(bytes, bps) * bps <= bytes * USEC < Exact(bytes, bps) * bps + bps
  {
    DivModIsDivision(bytes * USEC, bps);
    DivModProduct(bytes * USEC, bps);
  }

  lemma Recombine(a: nat, q: nat, r: nat, bps: nat)
    requires a * bps <= r * USEC < a * bps + bps
    ensures (a + q * USEC) * bps <= (q * bps + r) * USEC < (a + q * USEC) * bps + bps
  {
    assert (a + q * USEC) * bps == a * bps + (q * bps) * USEC;
  }

  /** Splitting off whole seconds gives the exact floor. */
  lemma SplitIsExact(bytes: nat, bps: nat)
    requires bps > 0
    ensures Exact(bytes, bps) == DivMod(DivMod(bytes, bps).1 * USEC, bps).0 + DivMod(bytes, bps).0 * USEC
  {
    var (q, r) := DivMod(bytes, bps);
    var a := DivMod(r * USEC, bps).0;
    DivModProduct(bytes, bps);
    DivModProduct(r * USEC, bps);
    Recombine(a, q, r, bps);
    DivModUnique(bytes * USEC, bps, a + q * USEC);
    ExactQuotient(bytes, bps);
  }

  lemma WrapShows(x: nat, secs: nat, bps: nat)
    requires 0 < bps < U64 && DivMod(x, bps).0 + secs < U64
    ensures Add64(DivMod(Low64(x), bps).0, Low64(secs)) == DivMod(x, bps).0 + secs <==> x < U64
  {
    if x >= U64 {
      DivModMono(Low64(x), x - bps, bps);
    }
  }

  /** The product of the remainder and 10^6 is the only thing that can go wrong: as long as
      the true time fits 64 bits, the result is right exactly when that product fits. */
  lemma UsecForExactIff(bytes: nat, bps: nat)
    requires 0 < bps < U64 && Exact(bytes, bps) < U64
    ensures UsecFor(bytes, bps) == Exact(bytes, bps) <==> DivMod(bytes, bps).1 * USEC < U64
  {
    SplitIsExact(bytes, bps);
    var (secs, rest) := DivMod(bytes, bps);
    WrapShows(rest * USEC, secs * USEC, bps);
  }

  /** No byte count is ever timed wrongly exactly when the rate is at most 18446744073710
      bytes a second. */
  lemma UsecForRightIffSlow(bps: nat)
    requires 0 < bps < U64
    ensures (forall bytes: nat :: Exact(bytes, bps) < U64 ==> UsecFor(bytes, bps) == Exact(bytes, bps))
            <==> bps <= 18446744073710
  {
    if bps <= 18446744073710 {
      forall bytes: nat | Exact(bytes, bps) < U64
        ensures UsecFor(bytes, bps) == Exact(bytes, bps)
      {
        UsecForExactIff(bytes, bps);
      }
    } else {
      DivModUnique((bps - 1) * USEC, bps, USEC - 1);
      ExactQuotient(bps - 1, bps);
      UsecForExactIff(bps - 1, bps);
    }
  }

  /** Rates per direction, whether the job mixes reads and writes and in what parts, and the
      largest block. */
  datatype Job = Job(bps: seq<nat>, mixed: bool, mix: seq<nat>, maxLen: nat) {
    ghost predicate Ok() {
      |bps| == DIRS && |mix| == DIRS
    }

    /** The other direction, when `rate_ddir` may switch to it. */
    function Other(d: nat): Option<nat>
      requires |mix| == DIRS
    {
      if mixed && d < 2 && mix[1 - d] != 0 then Some(1 - d) else None
    }
  }

  datatype Unit = Unit(ddir: nat, len: nat)

  datatype Pace = Pace(issued: seq<nat>, next: seq<nat>, requeued: Option<Unit>, now: nat)

  /** `rate_ddir`: the direction and the time it is due, without the sleep's inaccuracy. */
  function Choose(job: Job, next: seq<nat>, want: nat, now: nat): (r: (nat, nat))
    requires job.Ok() && |next| == DIRS && want < DIRS
    ensures r.0 < DIRS && next[r.0] <= r.1 && now <= r.1
  {
    if next[want] <= now then (want, now)
    else
      match job.Other(want)
      case None => (want, next[want])
      case Some(o) =>
        if next[o] <= now then (o, now)
        else if next[want] <= next[o] then (want, next[want])
        else (o, next[o])
  }

  /** A job that mixes its directions takes whichever is due first, the wanted one if it is
      due already or no later, and waits no longer than until then; any other job waits for
      the direction it wants. */
  lemma EarliestDirection(job: Job, next: seq<nat>, want: nat, now: nat)
    requires job.Ok() && |next| == DIRS && want < DIRS
    ensures var (d, due) := Choose(job, next, want, now);
            if job.mixed && want < 2 && job.mix[1 - want] != 0 then
              var first := if next[want] <= next[1 - want] then next[want] else next[1 - want];
              && due == (if first <= now then now else first)
              && d == (if next[want] <= now || next[want] <= next[1 - want] then want else 1 - want)
            else
              d == want && due == (if next[want] <= now then now else next[want])
  {
  }

  /** State after submitting `u` at time `now`: a unit the engine refuses is taken off the
      books and waits on the requeue ring. */
  function Submitted(job: Job, s: Pace, u: Unit, now: nat, busy: bool): Pace
    requires job.Ok() && |s.issued| == |s.next| == DIRS && u.ddir < DIRS
  {
    var issued := if busy then s.issued else s.issued[u.ddir := Low64(s.issued[u.ddir] + u.len)];
    Pace(issued, s.next[u.ddir := UsecFor(issued[u.ddir], job.bps[u.ddir])], if busy then Some(u) else None, now)
  }

  /** One turn of the submit loop: delays before, during and after the rate check, the
      direction the workload wants, the block it picks and the engine's answer. */
  datatype Turn = Turn(idle: nat, want: nat, oversleep: nat, len: nat, late: nat, busy: bool)

  ghost predicate CanTurn(job: Job, s: Pace, t: Turn) {
    && job.Ok() && |s.issued| == |s.next| == DIRS && t.want < DIRS
    && (s.requeued.Some? ==> s.requeued.value.ddir < DIRS)
  }

  /** The unit a turn submits: the requeued one, or a new one in the direction `rate_ddir` gives. */
  function Next(job: Job, s: Pace, t: Turn): (u: Unit)
    requires CanTurn(job, s, t)
    ensures u.ddir < DIRS
  {
    if s.requeued.Some? then s.requeued.value
    else Unit(Choose(job, s.next, t.want, s.now + t.idle).0, t.len)
  }

  /** When it does: at once if the unit was requeued or is due, else after the sleep. */
  function SubmitTime(job: Job, s: Pace, t: Turn): (at: nat)
    requires CanTurn(job, s, t)
    ensures s.now + t.idle <= at
  {
    var now := s.now + t.idle;
    var due := if s.requeued.Some? then now else Choose(job, s.next, t.want, now).1;
    (if due == now then now else due + t.oversleep) + t.late
  }

  function Turned(job: Job, s: Pace, t: Turn): (s': Pace)
    requires CanTurn(job, s, t)
    ensures |s'.issued| == |s'.next| == DIRS && s.now <= s'.now
    ensures s'.requeued.Some? ==> s'.requeued.value.ddir < DIRS
  {
    Submitted(job, s, Next(job, s, t), SubmitTime(job, s, t), t.busy)
  }

  function Fresh(): Pace {
    Pace([0, 0, 0], [0, 0, 0], None, 0)
  }

  /** By `now` a direction is at most one block ahead of its rate. */
  ghost predicate Within(bytes: nat, bps: nat, now: nat, maxLen: nat) {
    bytes * USEC < bps * (now + 1) + maxLen * USEC
  }

  ghost predicate DirPaced(job: Job, s: Pace, d: nat)
    requires job.Ok() && |s.issued| == |s.next| == DIRS && d < DIRS
  {
    && s.next[d] == UsecFor(s.issued[d], job.bps[d])
    && (job.bps[d] > 0 ==> Within(s.issued[d], job.bps[d], s.now, job.maxLen))
  }

  ghost predicate Paced(job: Job, s: Pace) {
    && job.Ok() && |s.issued| == |s.next| == DIRS
    && (forall d: nat :: d < DIRS ==> DirPaced(job, s, d))
    && (s.requeued.Some? ==>
          var u := s.requeued.value; u.ddir < DIRS && u.len <= job.maxLen && s.next[u.ddir] <= s.now)
  }

  /** Rates, byte counts and times up to `now` fit the 64-bit variables that hold them. */
  ghost predicate Fits(bps: nat, maxLen: nat, now: nat) {
    bps <= 18446744073710 && bps * (now + 1) + maxLen * USEC <= U64 * USEC && now + 1 + maxLen * USEC <= U64
  }

  lemma FitsEarlier(bps: nat, maxLen: nat, now: nat, later: nat)
    requires now <= later && Fits(bps, maxLen, later)
    ensures Fits(bps, maxLen, now)
  {
    MulMono(now + 1, later + 1, bps);
  }

  lemma WithinLater(bytes: nat, bps: nat, now: nat, later: nat, maxLen: nat)
    requires Within(bytes, bps, now, maxLen) && now <= later
    ensures Within(bytes, bps, later, maxLen)
  {
    MulMono(now + 1, later + 1, bps);
  }

  /** A byte count within its rate has an exact deadline. */
  lemma DeadlineExact(bytes: nat, bps: nat, now: nat, maxLen: nat)
    requires bps > 0 && Within(bytes, bps, now, maxLen) && Fits(bps, maxLen, now)
    ensures bytes < U64 && UsecFor(bytes, bps) == Exact(bytes, bps)
  {
    var t := Exact(bytes, bps);
    ExactQuotient(bytes, bps);
    MulMono(1, bps, maxLen * USEC);
    assert (now + 1 + maxLen * USEC) * bps == bps * (now + 1) + bps * (maxLen * USEC);
    CancelLt(t, now + 1 + maxLen * USEC, bps);
    UsecForExactIff(bytes, bps);
  }

  /** A direction that is due can take one more block. */
  lemma DueTakesBlock(bytes: nat, bps: nat, now: nat, len: nat, maxLen: nat)
    requires bps > 0 && Exact(bytes, bps) <= now && len <= maxLen
    ensures Within(bytes + len, bps, now, maxLen)
  {
    ExactQuotient(bytes, bps);
    MulMono(Exact(bytes, bps) + 1, now + 1, bps);
  }

  ghost predicate JobFits(job: Job, now: nat) {
    job.Ok() && forall d: nat :: d < DIRS ==> Fits(job.bps[d], job.maxLen, now)
  }

  lemma JobFitsEarlier(job: Job, now: nat, later: nat)
    requires JobFits(job, later) && now <= later
    ensures JobFits(job, now)
  {
    forall d: nat | d < DIRS
      ensures Fits(job.bps[d], job.maxLen, now)
    {
      FitsEarlier(job.bps[d], job.maxLen, now, later);
    }
  }

  lemma SubmitDirPaced(job: Job, s: Pace, u: Unit, now: nat, busy: bool)
    requires Paced(job, s) && JobFits(job, now) && s.now <= now
    requires u.ddir < DIRS && u.len <= job.maxLen && s.next[u.ddir] <= now
    ensures DirPaced(job, Submitted(job, s, u, now, busy), u.ddir)
    ensures job.bps[u.ddir] > 0 ==>
              Submitted(job, s, u, now, busy).issued[u.ddir] == s.issued[u.ddir] + (if busy then 0 else u.len)
  {
    var bytes, bps := s.issued[u.ddir], job.bps[u.ddir];
    assert DirPaced(job, s, u.ddir) && Fits(bps, job.maxLen, now);
    if bps > 0 {
      WithinLater(bytes, bps, s.now, now, job.maxLen);
      DeadlineExact(bytes, bps, now, job.maxLen);
      DueTakesBlock(bytes, bps, now, u.len, job.maxLen);
      DeadlineExact(bytes + u.len, bps, now, job.maxLen);
    }
  }

  lemma SubmitPaced(job: Job, s: Pace, u: Unit, now: nat, busy: bool)
    requires Paced(job, s) && JobFits(job, now) && s.now <= now
    requires u.ddir < DIRS && u.len <= job.maxLen && s.next[u.ddir] <= now
    ensures Paced(job, Submitted(job, s, u, now, busy))
  {
    var s' := Submitted(job, s, u, now, busy);
    SubmitDirPaced(job, s, u, now, busy);
    forall d: nat | d < DIRS
      ensures DirPaced(job, s', d)
    {
      if d != u.ddir {
        assert DirPaced(job, s, d);
        if job.bps[d] > 0 {
          WithinLater(s.issued[d], job.bps[d], s.now, now, job.maxLen);
        }
      }
    }
    if busy {
      assert DirPaced(job, s, u.ddir);
    }
  }

  ghost predicate TurnOk(job: Job, t: Turn) {
    t.want < DIRS && t.len <= job.maxLen
  }

  ghost predicate TurnsOk(job: Job, turns: seq<Turn>) {
    forall i :: 0 <= i < |turns| ==> TurnOk(job, turns[i])
  }

  lemma TurnPaced(job: Job, s: Pace, t: Turn)
    requires Paced(job, s) && TurnOk(job, t) && JobFits(job, Turned(job, s, t).now)
    ensures Paced(job, Turned(job, s, t))
  {
    SubmitPaced(job, s, Next(job, s, t), SubmitTime(job, s, t), t.busy);
  }

  function Run(job: Job, s: Pace, turns: seq<Turn>): (s': Pace)
    requires job.Ok() && |s.issued| == |s.next| == DIRS && (s.requeued.Some? ==> s.requeued.value.ddir < DIRS)
    requires TurnsOk(job, turns)
    ensures s.now <= s'.now && |s'.issued| == DIRS
    decreases |turns|
  {
    if turns == [] then s else Run(job, Turned(job, s, turns[0]), turns[1..])
  }

  lemma {:induction false} RunPaced(job: Job, s: Pace, turns: seq<Turn>)
    requires Paced(job, s) && TurnsOk(job, turns)
    requires JobFits(job, Run(job, s, turns).now)
    ensures Paced(job, Run(job, s, turns))
    decreases |turns|
  {
    if turns != [] {
      var s' := Turned(job, s, turns[0]);
      JobFitsEarlier(job, s'.now, Run(job, s', turns[1..]).now);
      TurnPaced(job, s, turns[0]);
      RunPaced(job, s', turns[1..]);
    }
  }

  lemma FreshDir(bps: nat, maxLen: nat)
    ensures UsecFor(0, bps) == 0 && (bps > 0 ==> Within(0, bps, 0, maxLen))
  {
  }

  lemma FreshPaced(job: Job)
    requires job.Ok()
    ensures Paced(job, Fresh())
  {
    forall d: nat | d < DIRS
      ensures DirPaced(job, Fresh(), d)
    {
      FreshDir(job.bps[d], job.maxLen);
    }
  }

  /** Bytes the engine accepts in direction `d` in a turn. */
  ghost function Booked(job: Job, s: Pace, t: Turn, d: nat): nat
    requires CanTurn(job, s, t)
  {
    if !t.busy && Next(job, s, t).ddir == d then Next(job, s, t).len else 0
  }

  /** Bytes it has accepted over the turns. */
  ghost function Accepted(job: Job, s: Pace, turns: seq<Turn>, d: nat): nat
    requires job.Ok() && |s.issued| == |s.next| == DIRS && (s.requeued.Some? ==> s.requeued.value.ddir < DIRS)
    requires TurnsOk(job, turns)
    decreases |turns|
  {
    if turns == [] then 0
    else Booked(job, s, turns[0], d) + Accepted(job, Turned(job, s, turns[0]), turns[1..], d)
  }

  /** A unit the engine refuses is the one submitted next, and at once. */
  lemma RefusedComesBack(job: Job, s: Pace, t: Turn, t': Turn)
    requires CanTurn(job, s, t) && t.busy && t'.want < DIRS
    ensures var s' := Turned(job, s, t);
            Next(job, s', t') == Next(job, s, t) && SubmitTime(job, s', t') == s'.now + t'.idle + t'.late
  {
  }

  /** A turn books exactly what the engine accepts. */
  lemma TurnCounts(job: Job, s: Pace, t: Turn, d: nat)
    requires Paced(job, s) && TurnOk(job, t) && JobFits(job, Turned(job, s, t).now) && d < DIRS && job.bps[d] > 0
    ensures Turned(job, s, t).issued[d] == s.issued[d] + Booked(job, s, t, d)
  {
    SubmitDirPaced(job, s, Next(job, s, t), SubmitTime(job, s, t), t.busy);
  }

  /** So does a run. */
  lemma {:induction false} RunCounts(job: Job, s: Pace, turns: seq<Turn>, d: nat)
    requires Paced(job, s) && TurnsOk(job, turns) && d < DIRS && job.bps[d] > 0
    requires JobFits(job, Run(job, s, turns).now)
    ensures Run(job, s, turns).issued[d] == s.issued[d] + Accepted(job, s, turns, d)
    decreases |turns|
  {
    if turns != [] {
      var s' := Turned(job, s, turns[0]);
      JobFitsEarlier(job, s'.now, Run(job, s', turns[1..]).now);
      TurnPaced(job, s, turns[0]);
      TurnCounts(job, s, turns[0], d);
      RunCounts(job, s', turns[1..], d);
    }
  }

  /** In any direction, with or without a rate, a turn books what the engine accepts, in 64 bits. */
  lemma TurnBooks(job: Job, s: Pace, t: Turn, d: nat)
    requires CanTurn(job, s, t) && d < DIRS && s.issued[d] < U64
    ensures Turned(job, s, t).issued[d] == Low64(s.issued[d] + Booked(job, s, t, d)) < U64
  {
  }

  /** Over any run, with refused units, switched directions and any delays, the engine has
      accepted less than one block more in a direction with a rate than the rate allows. */
  lemma RateHolds(job: Job, turns: seq<Turn>, d: nat)
    requires job.Ok() && d < DIRS && job.bps[d] > 0
    requires TurnsOk(job, turns)
    requires JobFits(job, Run(job, Fresh(), turns).now)
    ensures Accepted(job, Fresh(), turns, d) * USEC
            < job.bps[d] * (Run(job, Fresh(), turns).now + 1) + job.maxLen * USEC
  {
    FreshPaced(job);
    RunPaced(job, Fresh(), turns);
    RunCounts(job, Fresh(), turns, d);
    assert DirPaced(job, Run(job, Fresh(), turns), d);
  }

  class Pacer {
    const job: Job
    var issued: seq<nat>
    var next: seq<nat>
    var requeued: Option<Unit>

    ghost predicate Valid()
      reads this
    {
      job.Ok() && |issued| == |next| == DIRS && (requeued.Some? ==> requeued.value.ddir < DIRS)
    }

    ghost function At(now: nat): Pace
      reads this
    {
      Pace(issued, next, requeued, now)
    }

    constructor (job: Job)
      requires job.Ok()
      ensures Valid() && this.job == job && At(0) == Fresh()
    {
      this.job := job;
      issued, next, requeued := [0, 0, 0], [0, 0, 0], None;
    }

    /** Never sleeps while a direction it may use is due; otherwise wakes when the first of
        them is. */
    method RateDdir(want: nat, now: nat) returns (d: nat, sleep: nat)
      requires Valid() && want < DIRS
      ensures Choose(job, next, want, now) == (d, now + sleep)
      ensures d == want || job.Other(want) == Some(d)
      ensures next[d] <= now + sleep
      ensures next[want] <= now ==> d == want
      ensures d != want ==> next[d] < next[want]
      ensures sleep > 0 ==> now + sleep <= next[want]
      ensures sleep > 0 && job.Other(want).Some? ==> now + sleep <= next[job.Other(want).value]
    {
      if next[want] <= now {
        return want, 0;
      }
      d := want;
      var other := job.Other(want);
      if other.Some? {
        var o := other.value;
        if next[o] <= now {
          return o, 0;
        }
        if next[want] > next[o] {
          d := o;
        }
      }
      sleep := next[d] - now;
    }

    /** `td_io_queue`'s accounting and the new deadline `do_io` sets. */
    method Submit(u: Unit, ghost now: nat, busy: bool)
      requires Valid() && u.ddir < DIRS && issued[u.ddir] < U64 && u.len < U64
      modifies this
      ensures Valid() && At(now) == Submitted(job, old(At(now)), u, now, busy)
    {
      var d := u.ddir;
      var before := issued;
      issued := issued[d := Low64(issued[d] + u.len)];
      requeued := None;
      if busy {
        issued := issued[d := Low64(issued[d] + (U64 - u.len))];
        assert issued == before;
        requeued := Some(u);
      }
      next := next[d := UsecFor(issued[d], job.bps[d])];
    }
  }
}
