/** Tick-to-nanosecond conversion of the CPU clock source: the shift, multiplier and mask
    chosen by the calibration, and the two-stage conversion that uses them, in 64-bit
    arithmetic. */
module ClockConversion {
  import opened Bits

  const MAX_CLOCK_SEC: nat := 60 * 60
  const NSEC_PER_MSEC: nat := 1_000_000

  function Mul64(a: nat, b: nat): nat { (a * b) % U64 }

  datatype Clock = Clock(shift: nat, mult: nat, cyclesShift: nat, mask: nat, nsecsForMaxCycles: nat)

  /** Ticks in `MAX_CLOCK_SEC` seconds. */
  function MaxTicks(cpm: nat): nat { MAX_CLOCK_SEC * cpm * 1000 }

  /** What calibration establishes, over unbounded numbers. */
  ghost predicate Calibrated(cpm: nat, c: Clock) {
    && cpm > 0 && MaxTicks(cpm) < U64
    && 21 <= c.shift <= 22
    && c.mult == Quot(Pow2(c.shift) * NSEC_PER_MSEC, cpm)
    && c.mult * MaxTicks(cpm) < U64
    && Pow2(c.cyclesShift) <= MaxTicks(cpm) < 2 * Pow2(c.cyclesShift)
    && c.mask == Pow2(c.cyclesShift) - 1
    && c.nsecsForMaxCycles == Scaled(Pow2(c.cyclesShift), c.mult, c.shift)
  }

  /** The shift-counting loop: the position of the highest set bit. */
  method HighestBit(x: nat) returns (sft: nat)
    requires x > 0
    ensures Pow2(sft) <= x < 2 * Pow2(sft)
  {
    var tmp := x;
    sft := 0;
    while tmp > 1
      invariant tmp >= 1 && tmp * Pow2(sft) <= x < (tmp + 1) * Pow2(sft)
    {
      ShiftOut(tmp, Pow2(sft), x);
      tmp := tmp / 2;
      sft := sft + 1;
    }
  }

  lemma ShiftOut(tmp: nat, p: nat, x: nat)
    requires tmp * p <= x < (tmp + 1) * p
    ensures (tmp / 2) * (2 * p) <= x < (tmp / 2 + 1) * (2 * p)
  {
    var h := tmp / 2;
    assert h * (2 * p) == (2 * h) * p && (h + 1) * (2 * p) == (2 * h + 2) * p;
    MulMono(2 * h, tmp, p);
    MulMono(tmp + 1, 2 * h + 2, p);
  }

  /** The mask-building loop. */
  method OnesBelow(n: nat) returns (mask: nat)
    ensures mask == Pow2(n) - 1
  {
    mask := 0;
    var tmp := 0;
    while tmp < n
      invariant tmp <= n && mask == Pow2(tmp) - 1
    {
      OrNextBit(tmp);
      mask := Or(mask, Pow2(tmp));
      tmp := tmp + 1;
    }
  }

  /** The largest multiplier whose product with an hour of ticks fits, times the ticks of
      a millisecond, lies within a factor of two whatever the clock rate. */
  lemma MaxMultBounds(cpm: nat, maxMult: nat)
    requires cpm > 0 && MaxTicks(cpm) < U64
    requires maxMult == Quot(U64 - 1, MaxTicks(cpm))
    ensures maxMult * MaxTicks(cpm) < U64
    ensures 0x20_0000 <= maxMult * cpm / NSEC_PER_MSEC < 0x80_0000
    ensures maxMult * cpm < U64
  {
    var d, q := MaxTicks(cpm), maxMult;
    assert q * d == (q * cpm) * 3_600_000;
    MulMono(1, q, d);
    assert (U64 - 1) < 2 * (q * d);
  }

  /** The largest shift whose multiplier stays within the limit, and that multiplier. */
  method ChooseMultiplier(cpm: nat, maxTicks: nat) returns (sft: nat, mult: nat)
    requires cpm > 0 && maxTicks == MaxTicks(cpm) < U64
    ensures 21 <= sft <= 22 && mult == Quot(Pow2(sft) * NSEC_PER_MSEC, cpm)
    ensures mult * MaxTicks(cpm) < U64
    ensures Pow2(sft) * NSEC_PER_MSEC <= Quot(U64 - 1, maxTicks) * cpm < Pow2(sft + 1) * NSEC_PER_MSEC
  {
    var maxMult := Quot(U64 - 1, maxTicks);
    MaxMultBounds(cpm, maxMult);
    Mul64Exact(maxMult, cpm);
    var tmp := Mul64(maxMult, cpm) / NSEC_PER_MSEC;
    sft := HighestBit(tmp);
    ShiftIs21Or22(sft, tmp);
    Mul64Exact(Pow2(sft), NSEC_PER_MSEC);
    mult := Quot(Mul64(Pow2(sft), NSEC_PER_MSEC), cpm);
    MultWithinMax(cpm, maxMult, Pow2(sft), tmp);
    MulMono(mult, maxMult, maxTicks);
  }

  method HourOfTicks(cpm: nat) returns (maxTicks: nat)
    requires MaxTicks(cpm) < U64
    ensures maxTicks == MaxTicks(cpm)
  {
    maxTicks := Mul64(Mul64(MAX_CLOCK_SEC, cpm), 1000);
  }

  method BlockNsecs(cyclesShift: nat, mult: nat, sft: nat) returns (nsecs: nat)
    requires Pow2(cyclesShift) * mult < U64
    ensures nsecs == Scaled(Pow2(cyclesShift), mult, sft)
  {
    Mul64Exact(Pow2(cyclesShift), mult);
    nsecs := Shr(Mul64(Pow2(cyclesShift), mult), sft);
  }

  /** `calibrate_cpu_clock` from the averaged tick rate on. */
  method Calibrate(cpm: nat) returns (c: Clock)
    requires cpm > 0 && MaxTicks(cpm) < U64
    ensures Calibrated(cpm, c)
  {
    var maxTicks := HourOfTicks(cpm);
    var sft, mult := ChooseMultiplier(cpm, maxTicks);
    var cyclesShift := HighestBit(maxTicks);
    FullBlockFits(Pow2(cyclesShift), mult, maxTicks);
    var nsecs := BlockNsecs(cyclesShift, mult, sft);
    var mask := OnesBelow(cyclesShift);
    c := Clock(sft, mult, cyclesShift, mask, nsecs);
  }

  lemma Mul64Exact(a: nat, b: nat)
    requires a * b < U64
    ensures Mul64(a, b) == a * b
  {
  }

  lemma ShiftIs21Or22(sft: nat, tmp: nat)
    requires Pow2(sft) <= tmp < 2 * Pow2(sft) && 0x20_0000 <= tmp < 0x80_0000
    ensures 21 <= sft <= 22 && Pow2(sft) < 0x80_0000
  {
    assert Pow2(10) == 1024 && Pow2(11) == 2048 && Pow2(12) == 4096;
    Pow2Add(10, 11);
    Pow2Add(11, 12);
    assert Pow2(21) == 0x20_0000 && Pow2(23) == 0x80_0000;
    if sft <= 20 {
      Pow2Mono(sft + 1, 21);
    } else if sft >= 23 {
      Pow2Mono(23, sft);
    }
  }

  lemma MultWithinMax(cpm: nat, maxMult: nat, s: nat, tmp: nat)
    requires cpm > 0 && tmp == maxMult * cpm / NSEC_PER_MSEC && s <= tmp
    ensures Quot(s * NSEC_PER_MSEC, cpm) <= maxMult
  {
    CancelLe(Quot(s * NSEC_PER_MSEC, cpm), maxMult, cpm);
  }

  lemma FullBlockFits(block: nat, mult: nat, ticks: nat)
    requires block <= ticks && mult * ticks < U64
    ensures block * mult < U64
  {
    MulMono(block, ticks, mult);
    assert ticks * mult == mult * ticks;
  }

  /** The conversion as the source computes it, every operation wrapping at 64 bits. */
  function Nsecs(c: Clock, t: nat): nat {
    Add64(Mul64(Shr(t, c.cyclesShift), c.nsecsForMaxCycles),
          Shr(Mul64(And(t, c.mask), c.mult), c.shift))
  }

  function MulAdd(k: nat, n: nat, r: nat): nat {
    assert k * n >= 0;
    k * n + r
  }

  /** `(x * mult) >> shift`, the multiply-and-shift of both stages. */
  function Scaled(x: nat, mult: nat, shift: nat): (n: nat)
    ensures n * Pow2(shift) <= x * mult < n * Pow2(shift) + Pow2(shift)
  {
    assert x * mult >= 0;
    ShrLow(x * mult, shift);
    Shr(x * mult, shift)
  }

  /** The same conversion over unbounded numbers: whole blocks of `2^max_cycles_shift`
      ticks, then the rest. */
  ghost function Unbounded(c: Clock, t: nat): nat {
    MulAdd(Shr(t, c.cyclesShift), c.nsecsForMaxCycles, Scaled(Low(t, c.cyclesShift), c.mult, c.shift))
  }

  /** Both stages together round `t * mult / 2^shift` down, by less than one per block
      and less than one for the rest. */
  lemma StageBounds(c: Clock, t: nat)
    requires c.nsecsForMaxCycles == Scaled(Pow2(c.cyclesShift), c.mult, c.shift)
    ensures Unbounded(c, t) * Pow2(c.shift) <= t * c.mult
    ensures t * c.mult < (Unbounded(c, t) + Shr(t, c.cyclesShift) + 1) * Pow2(c.shift)
  {
    var b := c.cyclesShift;
    ShrLow(t, b);
    CombineStages(t, Shr(t, b), Low(t, b), Pow2(b), c.mult, Pow2(c.shift), c.nsecsForMaxCycles,
                  Scaled(Low(t, b), c.mult, c.shift));
  }

  lemma CombineStages(t: nat, k: nat, r: nat, b: nat, mult: nat, s: nat, n: nat, m: nat)
    requires n * s <= b * mult < n * s + s && m * s <= r * mult < m * s + s && t == k * b + r
    ensures MulAdd(k, n, m) * s <= t * mult < (MulAdd(k, n, m) + k + 1) * s
  {
    Distribute(k, n, m, s);
    Distribute(k, b, r, mult);
    Distribute(k, n + 1, m + 1, s);
    assert (n + 1) * s == n * s + s && (m + 1) * s == m * s + s;
    assert k * (n + 1) + (m + 1) == MulAdd(k, n, m) + k + 1;
    MulMono(n * s, b * mult, k);
    MulMono(b * mult, (n + 1) * s, k);
  }

  lemma Distribute(k: nat, n: nat, m: nat, s: nat)
    ensures (k * n + m) * s == (n * s) * k + m * s
  {
  }

  /** The converted time never runs ahead of `t * 10^6 / cycles_per_msec`. */
  lemma NeverAhead(cpm: nat, c: Clock, t: nat)
    requires Calibrated(cpm, c)
    ensures Unbounded(c, t) * cpm <= t * NSEC_PER_MSEC
  {
    StageBounds(c, t);
    ChainAtMost(Unbounded(c, t), Pow2(c.shift), t, c.mult, cpm, NSEC_PER_MSEC);
  }

  lemma ChainAtMost(u: nat, s: nat, t: nat, mult: nat, m: nat, e: nat)
    requires s > 0 && u * s <= t * mult && mult * m <= s * e
    ensures u * m <= t * e
  {
    MulMono(u * s, t * mult, m);
    MulMono(mult * m, s * e, t);
    assert (u * s) * m == (u * m) * s;
    assert (t * mult) * m == (mult * m) * t;
    assert (s * e) * t == (t * e) * s;
    CancelLe(u * m, t * e, s);
  }

  /** ... and falls short of it by less than `t / 2^shift` plus one per elapsed block plus
      one nanosecond (multiplied through by `cycles_per_msec * 2^shift`). */
  lemma ShortfallBound(cpm: nat, c: Clock, t: nat)
    requires Calibrated(cpm, c)
    ensures (t * NSEC_PER_MSEC) * Pow2(c.shift)
            < ((Unbounded(c, t) + Shr(t, c.cyclesShift) + 1) * cpm) * Pow2(c.shift) + t * cpm
  {
    StageBounds(c, t);
    ChainAtLeast(Unbounded(c, t) + Shr(t, c.cyclesShift) + 1, Pow2(c.shift), t, c.mult, cpm, NSEC_PER_MSEC);
  }

  lemma ChainAtLeast(v: nat, s: nat, t: nat, mult: nat, m: nat, e: nat)
    requires m > 0 && t * mult < v * s && s * e < mult * m + m
    ensures (t * e) * s < (v * m) * s + t * m
  {
    MulMono(t * mult + 1, v * s, m);
    MulMono(s * e, mult * m + m, t);
    assert (t * mult + 1) * m == (mult * m) * t + m;
    assert (v * s) * m == (v * m) * s;
    assert (s * e) * t == (t * e) * s;
    assert (mult * m + m) * t == (mult * m) * t + t * m;
  }

  /** Conversion is monotone, across block boundaries too. */
  lemma Monotone(cpm: nat, c: Clock, t: nat, t': nat)
    requires Calibrated(cpm, c) && t <= t'
    ensures Unbounded(c, t) <= Unbounded(c, t')
  {
    var b := c.cyclesShift;
    BlocksOrdered(t, t', b);
    if Shr(t, b) == Shr(t', b) {
      ScaledMono(Low(t, b), Low(t', b), c.mult, c.shift);
    } else {
      ScaledMono(Low(t, b), Pow2(b), c.mult, c.shift);
      NextBlock(Shr(t, b), Shr(t', b), c.nsecsForMaxCycles,
                Scaled(Low(t, b), c.mult, c.shift), Scaled(Low(t', b), c.mult, c.shift));
    }
  }

  lemma NextBlock(k: nat, k': nat, n: nat, rest: nat, rest': nat)
    requires k < k' && rest <= n
    ensures MulAdd(k, n, rest) <= MulAdd(k', n, rest')
  {
    MulMono(k + 1, k', n);
    assert (k + 1) * n == k * n + n;
  }

  lemma {:induction false} BlocksOrdered(t: nat, t': nat, b: nat)
    requires t <= t'
    ensures Shr(t, b) < Shr(t', b) || (Shr(t, b) == Shr(t', b) && Low(t, b) <= Low(t', b))
    ensures t < t' && Shr(t, b) == Shr(t', b) ==> Low(t, b) < Low(t', b)
  {
    if b > 0 {
      BlocksOrdered(t / 2, t' / 2, b - 1);
    }
  }

  lemma ScaledMono(x: nat, x': nat, mult: nat, shift: nat)
    requires x <= x'
    ensures Scaled(x, mult, shift) <= Scaled(x', mult, shift)
  {
    MulMono(x, x', mult);
    BlocksOrdered(x * mult, x' * mult, shift);
  }

  /** The 64-bit computation gives the unbounded value exactly when that value fits. */
  lemma ExactWhenItFits(cpm: nat, c: Clock, t: nat)
    requires Calibrated(cpm, c) && t < U64
    ensures Nsecs(c, t) == Unbounded(c, t) <==> Unbounded(c, t) < U64
  {
    var b := c.cyclesShift;
    AndMask(t, b);
    RestFits(Low(t, b), Pow2(b), c.mult, MaxTicks(cpm));
    Mul64Exact(Low(t, b), c.mult);
    SumWraps(Shr(t, b), c.nsecsForMaxCycles, Scaled(Low(t, b), c.mult, c.shift));
  }

  lemma SumWraps(k: nat, n: nat, r: nat)
    ensures Add64(Mul64(k, n), r) == MulAdd(k, n, r) <==> MulAdd(k, n, r) < U64
  {
  }

  lemma RestFits(r: nat, b: nat, mult: nat, ticks: nat)
    requires r < b <= ticks && mult * ticks < U64
    ensures r * mult < U64
  {
    FullBlockFits(b, mult, ticks);
    MulMono(r, b, mult);
  }

  /** Every 64-bit tick count converts without overflow exactly when the clock runs at a
      million ticks per millisecond or more. */
  lemma NeverOverflowsIffFast(cpm: nat, c: Clock)
    requires Calibrated(cpm, c)
    ensures (forall t: nat :: t < U64 ==> Nsecs(c, t) == Unbounded(c, t)) <==> cpm >= NSEC_PER_MSEC
  {
    if cpm >= NSEC_PER_MSEC {
      forall t: nat | t < U64 ensures Nsecs(c, t) == Unbounded(c, t) {
        NeverAhead(cpm, c, t);
        FastClockFits(Unbounded(c, t), t, cpm);
        ExactWhenItFits(cpm, c, t);
      }
    } else {
      SlowClockOverflows(cpm, c);
      ExactWhenItFits(cpm, c, U64 - 1);
      assert Nsecs(c, U64 - 1) != Unbounded(c, U64 - 1);
    }
  }

  lemma FastClockFits(u: nat, t: nat, cpm: nat)
    requires u * cpm <= t * NSEC_PER_MSEC && cpm >= NSEC_PER_MSEC
    ensures u <= t
  {
    MulMono(NSEC_PER_MSEC, cpm, t);
    assert t * NSEC_PER_MSEC == NSEC_PER_MSEC * t && cpm * t == t * cpm;
    CancelLe(u, t, cpm);
  }

  lemma SlowClockOverflows(cpm: nat, c: Clock)
    requires Calibrated(cpm, c) && cpm < NSEC_PER_MSEC
    ensures Unbounded(c, U64 - 1) >= U64
  {
    var t := U64 - 1;
    ShortfallBound(cpm, c, t);
    BlocksOfRate(cpm, c.cyclesShift, t);
    ShiftValue(c.shift);
    SlowArithmetic(Unbounded(c, t), Shr(t, c.cyclesShift), cpm, Pow2(c.shift), t);
  }

  lemma BlocksOfRate(cpm: nat, b: nat, t: nat)
    requires 3_600_000 * cpm < 2 * Pow2(b)
    ensures Shr(t, b) * cpm * 1_800_000 <= t
  {
    ShrLow(t, b);
    BlocksTimesRate(Shr(t, b), Pow2(b), cpm, t);
  }

  lemma ShiftValue(shift: nat)
    requires 21 <= shift <= 22
    ensures Pow2(shift) == 0x20_0000 || Pow2(shift) == 0x40_0000
  {
    assert Pow2(10) == 1024 && Pow2(11) == 2048;
    Pow2Add(10, 11);
    Pow2Add(11, 11);
  }

  lemma BlocksTimesRate(k: nat, b: nat, cpm: nat, t: nat)
    requires k * b <= t && 3_600_000 * cpm < 2 * b
    ensures k * cpm * 1_800_000 <= t
  {
    MulMono(1_800_000 * cpm, b, k);
    assert (1_800_000 * cpm) * k == k * cpm * 1_800_000 && b * k == k * b;
  }

  lemma SlowArithmetic(u: nat, k: nat, cpm: nat, s: nat, t: nat)
    requires t == U64 - 1 && 0 < cpm < NSEC_PER_MSEC && k * cpm * 1_800_000 <= t
    requires s == 0x20_0000 || s == 0x40_0000
    requires (t * NSEC_PER_MSEC) * s < ((u + k + 1) * cpm) * s + t * cpm
    ensures u > t
  {
    assert (u + k + 1) * cpm == u * cpm + k * cpm + cpm;
    if u <= t {
      MulMono(u, t, cpm);
      MulMono(cpm, NSEC_PER_MSEC - 1, t);
    }
  }

  /** Up to any tick count whose exact time fits 64 bits, and on a clock of 10^6 ticks per
      millisecond or more that is every one, the 64-bit conversion itself is monotone, never
      ahead of the exact time, and short of it by no more than the rounding of its stages. */
  lemma ConversionLaws(cpm: nat, c: Clock, t: nat, t': nat)
    requires Calibrated(cpm, c) && t <= t' < U64 && t' * NSEC_PER_MSEC < U64 * cpm
    ensures Nsecs(c, t) <= Nsecs(c, t')
    ensures Nsecs(c, t) * cpm <= t * NSEC_PER_MSEC
    ensures (t * NSEC_PER_MSEC) * Pow2(c.shift)
            < ((Nsecs(c, t) + Shr(t, c.cyclesShift) + 1) * cpm) * Pow2(c.shift) + t * cpm
  {
    ExactInTime(cpm, c, t);
    ExactInTime(cpm, c, t');
    Monotone(cpm, c, t, t');
    NeverAhead(cpm, c, t);
    ShortfallBound(cpm, c, t);
  }

  lemma ExactInTime(cpm: nat, c: Clock, t: nat)
    requires Calibrated(cpm, c) && t < U64 && t * NSEC_PER_MSEC < U64 * cpm
    ensures Nsecs(c, t) == Unbounded(c, t)
  {
    NeverAhead(cpm, c, t);
    CancelLt(Unbounded(c, t), U64, cpm);
    ExactWhenItFits(cpm, c, t);
  }

  /** Every tick count of a fast clock is such a count. */
  lemma FastClockInTime(cpm: nat, t: nat)
    requires cpm >= NSEC_PER_MSEC && t < U64
    ensures t * NSEC_PER_MSEC < U64 * cpm
  {
    MulMono(NSEC_PER_MSEC, cpm, U64);
  }
}
