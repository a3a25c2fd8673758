/** Unsigned machine arithmetic on natural numbers: powers of two, shifts, bitwise `&` and
    `|`, division, and the facts about masks that fio's rings, FIFO and clock rely on. */
module Bits {

  const U32: nat := 0x1_0000_0000
  const U64: nat := 0x1_0000_0000_0000_0000

  function Pow2(k: nat): (r: nat)
    ensures r >= 1
  {
    if k == 0 then 1 else 2 * Pow2(k - 1)
  }

  ghost predicate IsPow2(n: nat) {
    exists k: nat :: n == Pow2(k)
  }

  /** `x >> k`. */
  function Shr(x: nat, k: nat): nat {
    if k == 0 then x else Shr(x / 2, k - 1)
  }

  /** The `k` low bits of `x`. */
  function Low(x: nat, k: nat): (r: nat)
    ensures r < Pow2(k)
  {
    if k == 0 then 0 else 2 * Low(x / 2, k - 1) + x % 2
  }

  /** Bitwise `x & y`. */
  function And(x: nat, y: nat): nat {
    if x == 0 || y == 0 then 0
    else 2 * And(x / 2, y / 2) + (if x % 2 == 1 && y % 2 == 1 then 1 else 0)
  }

  /** Bitwise `x | y`. */
  function Or(x: nat, y: nat): nat
    decreases x + y
  {
    if x == 0 then y
    else if y == 0 then x
    else 2 * Or(x / 2, y / 2) + (if x % 2 == 1 || y % 2 == 1 then 1 else 0)
  }

  /** 64-bit truncation and addition. */
  function Low64(x: nat): (r: nat)
    ensures r == x <==> x < U64
    ensures r < U64
  {
    x % U64
  }

  function Add64(x: nat, y: nat): (r: nat)
    ensures x + y < U64 ==> r == x + y
  {
    (x + y) % U64
  }

  lemma SubsetSize(a: set<nat>, b: set<nat>)
    requires a <= b
    ensures |a| <= |b| && (a != b ==> |a| < |b|)
  {
    assert b == a + (b - a);
    if a != b {
      assert b - a != {};
    }
  }

  lemma MulMono(a: nat, b: nat, d: nat)
    requires a <= b
    ensures a * d <= b * d
  {
  }

  lemma CancelLe(a: nat, b: nat, s: nat)
    requires s > 0 && a * s <= b * s
    ensures a <= b
  {
    if b < a {
      MulMono(b + 1, a, s);
    }
  }

  /** Quotient and remainder by repeated subtraction, so that proofs can follow the
      definition; `DivModIsDivision` says that they are the usual ones. */
  function DivMod(x: nat, d: nat): (r: (nat, nat))
    requires d > 0
    ensures r.1 < d
  {
    if x < d then (0, x) else var (q, m) := DivMod(x - d, d); (q + 1, m)
  }

  lemma {:induction false} DivModIsDivision(x: nat, d: nat)
    requires d > 0
    ensures DivMod(x, d) == (x / d, x % d)
    decreases x
  {
    if x >= d {
      DivModIsDivision(x - d, d);
      DivStep(x, d);
    } else {
      DivSmall(x, d);
    }
  }

  lemma DivSmall(x: nat, d: nat)
    requires x < d
    ensures x / d == 0 && x % d == x
  {
    assert x == 0 * d + x;
  }

  lemma DivStep(x: nat, d: nat)
    requires 0 < d <= x
    ensures x / d == (x - d) / d + 1 && x % d == (x - d) % d
  {
    DivUnique(x, d, (x - d) / d + 1, (x - d) % d);
  }

  lemma DivUnique(x: nat, d: nat, q: nat, r: nat)
    requires 0 < d && x == q * d + r && r < d
    ensures x / d == q && x % d == r
  {
    if q < x / d {
      MulMono(q + 1, x / d, d);
    } else if x / d < q {
      MulMono(x / d + 1, q, d);
    }
  }

  lemma {:induction false} DivModProduct(x: nat, d: nat)
    requires d > 0
    ensures x == DivMod(x, d).0 * d + DivMod(x, d).1
    decreases x
  {
    if x >= d {
      DivModProduct(x - d, d);
    }
  }

  /** The quotient, with its defining bounds. */
  function Quot(x: nat, d: nat): (q: nat)
    requires d > 0
    ensures q * d <= x < q * d + d
  {
    DivModProduct(x, d);
    DivMod(x, d).0
  }

  lemma CancelLt(a: nat, b: nat, s: nat)
    requires a * s < b * s
    ensures a < b
  {
    if b <= a {
      MulMono(b, a, s);
    }
  }

  lemma DivModUnique(x: nat, d: nat, q: nat)
    requires d > 0 && q * d <= x < q * d + d
    ensures DivMod(x, d).0 == q
  {
    DivModProduct(x, d);
    CancelLt(DivMod(x, d).0, q + 1, d);
    CancelLt(q, DivMod(x, d).0 + 1, d);
  }

  /** Adding the divisor adds one to the quotient. */
  lemma {:induction false} DivModMono(x: nat, y: nat, d: nat)
    requires d > 0 && x <= y
    ensures DivMod(x, d).0 <= DivMod(y, d).0
    decreases y
  {
    if x >= d {
      DivModMono(x - d, y - d, d);
    }
  }

  lemma {:induction false} Pow2Add(a: nat, b: nat)
    ensures Pow2(a + b) == Pow2(a) * Pow2(b)
  {
    if a > 0 {
      Pow2Add(a - 1, b);
    }
  }

  lemma {:induction false} Pow2Mono(a: nat, b: nat)
    requires a <= b
    ensures Pow2(a) <= Pow2(b)
    ensures a < b ==> 2 * Pow2(a) <= Pow2(b)
    decreases b - a
  {
    if a < b {
      Pow2Mono(a + 1, b);
    }
  }

  lemma Pow2Top()
    ensures Pow2(31) == 0x8000_0000 && Pow2(32) == U32
  {
    assert Pow2(15) == 0x8000 && Pow2(16) == 0x1_0000;
    Pow2Add(15, 16);
    Pow2Add(16, 16);
  }

  /** A shift and the bits it drops are quotient and remainder by the power of two. */
  lemma {:induction false} ShrLow(x: nat, k: nat)
    ensures x == Shr(x, k) * Pow2(k) + Low(x, k)
  {
    if k > 0 {
      ShrLow(x / 2, k - 1);
      MulTwice(Shr(x / 2, k - 1), Pow2(k - 1));
    }
  }

  lemma MulTwice(q: nat, p: nat)
    ensures q * (2 * p) == 2 * (q * p)
  {
  }

  lemma {:induction false} LowUnique(x: nat, k: nat, q: nat, r: nat)
    requires r < Pow2(k) && x == q * Pow2(k) + r
    ensures Low(x, k) == r && Shr(x, k) == q
  {
    if k > 0 {
      MulTwice(q, Pow2(k - 1));
      LowUnique(x / 2, k - 1, q, r / 2);
    }
  }

  /** Adding a higher power of two leaves the low bits alone. */
  lemma {:induction false} LowPeriodic(x: nat, k: nat, n: nat)
    requires k <= n
    ensures Low(x + Pow2(n), k) == Low(x, k)
  {
    if k > 0 {
      assert Pow2(n) == 2 * Pow2(n - 1);
      LowPeriodic(x / 2, k - 1, n - 1);
    }
  }

  /** Masking with `2^k - 1` keeps the `k` low bits. */
  lemma {:induction false} AndMask(x: nat, k: nat)
    ensures And(x, Pow2(k) - 1) == Low(x, k)
  {
    if x == 0 {
      LowUnique(0, k, 0, 0);
    } else if k != 0 {
      AndMask(x / 2, k - 1);
      assert (Pow2(k) - 1) / 2 == Pow2(k - 1) - 1 && (Pow2(k) - 1) % 2 == 1;
    }
  }

  lemma {:induction false} AndSelf(x: nat)
    ensures And(x, x) == x
  {
    if x != 0 {
      AndSelf(x / 2);
    }
  }

  /** The power-of-two test `n & (n - 1)`. */
  lemma {:induction false} AndPredIsPow2(n: nat)
    requires n > 0
    ensures And(n, n - 1) == 0 <==> IsPow2(n)
  {
    if n == 1 {
      assert n == Pow2(0);
    } else if n % 2 == 0 {
      var h := n / 2;
      AndPredIsPow2(h);
      HalfIsPow2(n);
      assert And(n, n - 1) == 2 * And(h, h - 1);
    } else {
      var h := n / 2;
      AndSelf(h);
      OddIsNotPow2(n);
      assert And(n, n - 1) == 2 * And(h, h);
    }
  }

  lemma HalfIsPow2(n: nat)
    requires n > 0 && n % 2 == 0
    ensures IsPow2(n) <==> IsPow2(n / 2)
  {
    if IsPow2(n / 2) {
      var k: nat :| n / 2 == Pow2(k);
      assert n == Pow2(k + 1);
    }
    if IsPow2(n) {
      var k: nat :| n == Pow2(k);
      assert n / 2 == Pow2(k - 1);
    }
  }

  lemma OddIsNotPow2(n: nat)
    requires n > 1 && n % 2 == 1
    ensures !IsPow2(n)
  {
    forall k: nat ensures n != Pow2(k) {
    }
  }

  /** Index `x` masked for a buffer of `size` slots. */
  function Masked(x: nat, size: nat): nat
    requires size > 0
  {
    And(x, size - 1)
  }

  /** Setting the bit just above an all-ones mask extends the mask. */
  lemma {:induction false} OrNextBit(k: nat)
    ensures Or(Pow2(k) - 1, Pow2(k)) == Pow2(k + 1) - 1
  {
    if k > 0 {
      OrNextBit(k - 1);
      assert (Pow2(k) - 1) / 2 == Pow2(k - 1) - 1 && (Pow2(k) - 1) % 2 == 1;
    }
  }

  /** `x` has `k` bits and its `j` most significant ones are all set. */
  ghost predicate TopOnes(x: nat, k: nat, j: nat) {
    j <= k && Pow2(k) - Pow2(k - j) <= x < Pow2(k)
  }

  lemma {:induction false} TopOnesBit(x: nat, k: nat, j: nat, i: nat)
    requires TopOnes(x, k, j) && k - j <= i < k
    ensures Shr(x, i) % 2 == 1
    decreases i
  {
    if i == 0 {
      assert x == Pow2(k) - 1 && Pow2(k) == 2 * Pow2(k - 1);
    } else {
      TopOnesHalf(x, k, if j == k then j - 1 else j);
      TopOnesBit(x / 2, k - 1, if j == k then j - 1 else j, i - 1);
    }
  }

  lemma TopOnesHalf(x: nat, k: nat, j: nat)
    requires j < k && Pow2(k) - Pow2(k - j) <= x < Pow2(k)
    ensures TopOnes(x / 2, k - 1, j)
  {
    assert Pow2(k) == 2 * Pow2(k - 1) && Pow2(k - j) == 2 * Pow2(k - j - 1);
  }

  lemma {:induction false} ShrHalf(x: nat, j: nat)
    ensures Shr(x, j) / 2 == Shr(x / 2, j)
  {
    if j > 0 {
      ShrHalf(x / 2, j - 1);
    }
  }

  lemma {:induction false} ShrZero(x: nat, k: nat)
    requires x < Pow2(k)
    ensures Shr(x, k) == 0
  {
    if k > 0 {
      ShrZero(x / 2, k - 1);
    }
  }

  lemma OrHalves(x: nat, y: nat)
    ensures Or(x, y) / 2 == Or(x / 2, y / 2)
    ensures Or(x, y) % 2 == 1 <==> x % 2 == 1 || y % 2 == 1
  {
  }

  /** One smearing step `x |= x >> j` doubles the run of leading ones. */
  lemma {:induction false} SmearDoubles(x: nat, k: nat, j: nat)
    requires 1 <= j <= k && TopOnes(x, k, j)
    ensures TopOnes(Or(x, Shr(x, j)), k, if 2 * j <= k then 2 * j else k)
    decreases k
  {
    if j == k {
      ShrZero(x, k);
    } else {
      TopOnesHalf(x, k, j);
      SmearDoubles(x / 2, k - 1, j);
      ShrHalf(x, j);
      OrHalves(x, Shr(x, j));
      if 2 * j <= k - 1 {
        assert Pow2(k - 2 * j) == 2 * Pow2(k - 1 - 2 * j) && Pow2(k) == 2 * Pow2(k - 1);
      } else {
        TopOnesBit(x, k, j, j);
      }
    }
  }
}

/** Reading a buffer cyclically. */
module Cyclic {
  import opened Bits

  /** The slot `i` places after `from` in a buffer of `m` slots. */
  function Wrap(from: nat, i: nat, m: nat): (slot: nat)
    requires from < m && i <= m
    ensures slot < m
  {
    if from + i < m then from + i else from + i - m
  }

  /** The `n` slots of `s` from index `from` on, wrapping at the end. */
  ghost function Window<T>(s: seq<T>, from: nat, n: nat): (w: seq<T>)
    requires from < |s| && n <= |s|
    ensures |w| == n
    ensures forall i :: 0 <= i < n ==> w[i] == s[Wrap(from, i, |s|)]
  {
    seq(n, i requires 0 <= i < n => s[Wrap(from, i, |s|)])
  }

  /** In a buffer whose size is a power of two, moving a masked index on by `n` wraps it
      at the end of the buffer. */
  lemma MaskedStep(x: nat, n: nat, size: nat)
    requires IsPow2(size) && n <= size
    ensures Masked(x, size) < size
    ensures Masked(x + n, size) == Wrap(Masked(x, size), n, size)
  {
    var k: nat :| size == Pow2(k);
    AndMask(x, k);
    AndMask(x + n, k);
    ShrLow(x, k);
    LowStep(x, n, k, Shr(x, k), Low(x, k));
  }

  lemma LowStep(x: nat, n: nat, k: nat, q: nat, r: nat)
    requires x == q * Pow2(k) + r && r < Pow2(k) && n <= Pow2(k)
    ensures Low(x + n, k) == Wrap(r, n, Pow2(k))
  {
    if r + n < Pow2(k) {
      LowUnique(x + n, k, q, r + n);
    } else {
      assert (q + 1) * Pow2(k) == q * Pow2(k) + Pow2(k);
      LowUnique(x + n, k, q + 1, r + n - Pow2(k));
    }
  }

  /** An index already inside the buffer is its own mask. */
  lemma MaskedInside(x: nat, size: nat)
    requires IsPow2(size) && x < size
    ensures Masked(x, size) == x
  {
    var k: nat :| size == Pow2(k);
    AndMask(x, k);
    LowUnique(x, k, 0, x);
  }
}
