/**
 Division by an invariant 32-bit divisor through a precomputed reciprocal
 (class Divisor of src/perfect_hash.cc, after Robison).
 */
module Reciprocal {
  import opened Words

  const TWO32: nat := 0x1_0000_0000
  const TWO64: nat := 0x1_0000_0000_0000_0000

  function Pow2(k: nat): (p: nat)
    ensures p > 0
  {
    if k == 0 then 1 else 2 * Pow2(k - 1)
  }

  lemma {:induction false} Pow2Add(a: nat, b: nat)
    ensures Pow2(a + b) == Pow2(a) * Pow2(b)
  {
    if a > 0 { Pow2Add(a - 1, b); }
  }

  lemma {:induction false} Pow2Mono(a: nat, b: nat)
    requires a <= b
    ensures Pow2(a) <= Pow2(b)
  {
    if a < b { Pow2Mono(a, b - 1); }
  }

  lemma Pow2Known()
    ensures Pow2(31) == 0x8000_0000 && Pow2(32) == TWO32
  {
    assert Pow2(8) == 256;
    assert Pow2(16) == 65536 by { Pow2Add(8, 8); }
    assert Pow2(32) == TWO32 by { Pow2Add(16, 16); }
    assert Pow2(32) == 2 * Pow2(31);
  }

  /** A number strictly between consecutive powers of two divides no power of two. */
  lemma {:induction false} NoFactor(d: nat, f: nat, j: nat, k: nat)
    requires Pow2(k) < d < 2 * Pow2(k)
    ensures d * f != Pow2(j)
    decreases j, k
  {
    if d * f == Pow2(j) {
      if k == 0 {
        assert false;
      } else if j == 0 {
        assert false;
      } else if f % 2 == 0 {
        var h := f / 2;
        assert d * f == 2 * (d * h) by { assert f == 2 * h; }
        NoFactor(d, h, j - 1, k);
      } else {
        var h := d / 2;
        assert d % 2 == 0 by {
          if d % 2 == 1 {
            assert (d * f) % 2 == 1 by { OddTimesOdd(d, f); }
          }
        }
        assert d * f == 2 * (h * f) by { assert d == 2 * h; }
        NoFactor(h, f, j - 1, k - 1);
      }
    }
  }

  lemma OddTimesOdd(a: nat, b: nat)
    requires a % 2 == 1 && b % 2 == 1
    ensures (a * b) % 2 == 1
  {
    var x, y := a / 2, b / 2;
    assert a * b == 2 * (2 * (x * y) + x + y) + 1 by {
      assert a == 2 * x + 1 && b == 2 * y + 1;
    }
  }

  // Small facts about products, kept apart so that each proof sees few of them.

  lemma MulMono(c: int, a: int, b: int)
    requires a <= b && c >= 0
    ensures c * a <= c * b
  {
  }

  lemma Distribute(a: int, b: int, c: int)
    ensures a * (b + c) == a * b + a * c
  {
  }

  lemma Exchange(a: int, b: int, c: int)
    ensures a * (b * c) == b * (a * c)
  {
  }

  lemma QuotientUnique(y: int, M: int, q: int)
    requires M > 0 && M * q <= y < M * q + M
    ensures y / M == q
  {
    var k := y / M;
    assert M * k <= y < M * k + M;
    if k < q { MulMono(M, k + 1, q); Distribute(M, k, 1); assert false; }
    if k > q { MulMono(M, q + 1, k); Distribute(M, q, 1); assert false; }
  }

  /** Sandwiching `y` between consecutive multiples of `M`, both scaled by `d`. */
  lemma Sandwich(y: int, M: int, q: int, d: int)
    requires d > 0 && M > 0
    requires d * (M * q) <= d * y < d * (M * q + M)
    ensures y / M == q
  {
    var lo, hi := M * q, M * q + M;
    if y < lo { ScaledLess(d, y, lo); }
    if y >= hi { MulMono(d, hi, y); }
    QuotientUnique(y, M, q);
  }

  lemma ScaledLess(d: int, a: int, b: int)
    requires d > 0 && a < b
    ensures d * a < d * b
  {
  }

  /** The multiples of `M` around `M * x`, scaled by `d`. */
  lemma Brackets(x: nat, d: nat, M: nat)
    requires 0 < d && 0 < M
    ensures d * (M * (x / d)) <= M * x
    ensures M * x + M <= d * (M * (x / d) + M)
  {
    var q := x / d;
    var r := x - d * q;
    assert 0 <= r < d;
    Distribute(M, d * q, r);
    Exchange(M, d, q);
    MulMono(M, 0, r);
    MulMono(M, r + 1, d);
    Distribute(M, r, 1);
    Distribute(d, M * q, M);
  }

  /** Reciprocal rounded up: fac * d exceeds M by at most P. */
  lemma RoundedUp(x: nat, d: nat, P: nat, fac: nat, e: nat)
    requires 0 < d && 0 < P && x < TWO32
    requires fac * d == TWO32 * P + e && 0 < e <= P
    ensures (fac * x) / (TWO32 * P) == x / d
  {
    var M := TWO32 * P;
    assert d * (fac * x) == M * x + e * x by {
      Exchange(d, fac, x);
      Exchange(fac, d, x);
      assert d * (fac * x) == x * (fac * d) by { ProductOfThree(d, fac, x); }
      Distribute(x, M, e);
    }
    assert 0 <= e * x < M by {
      MulMono(x, e, P);
      MulMono(P, x, TWO32 - 1);
      MulMono(x, 0, e);
    }
    Brackets(x, d, M);
    Sandwich(fac * x, M, x / d, d);
  }

  lemma ProductOfThree(a: int, b: int, c: int)
    ensures a * (b * c) == c * (b * a)
  {
  }

  /** Reciprocal rounded down: fac * d falls short of M by at most P, and x is bumped by one. */
  lemma RoundedDown(x: nat, d: nat, P: nat, fac: nat, rem: int)
    requires 0 < d && 0 < P && x < TWO32
    requires fac * d == TWO32 * P - rem && 0 < rem <= P
    ensures (fac * x + fac) / (TWO32 * P) == x / d
  {
    var M := TWO32 * P;
    var y := fac * x + fac;
    assert d * y == M * x + M - rem * (x + 1) by {
      Distribute(fac, x, 1);
      assert d * (fac * (x + 1)) == (x + 1) * (fac * d) by { ProductOfThree(d, fac, x + 1); }
      Distribute(x + 1, M, 0 - rem);
      Distribute(M, x, 1);
    }
    assert 0 < rem * (x + 1) <= M by {
      MulMono(x + 1, rem, P);
      MulMono(P, x + 1, TWO32);
      MulMono(x + 1, 1, rem);
    }
    Brackets(x, d, M);
    Sandwich(y, M, x / d, d);
  }

  /** `fac` and `tip` approximate 2^(32+sft) / val from above or from below. */
  ghost predicate Approximates(val: int, fac: int, tip: int, sft: nat) {
    var P := Pow2(sft);
    && sft <= 31 && 0 < P <= val
    && (if tip == 0 then TWO32 * P < fac * val <= TWO32 * P + P
        else tip == fac && TWO32 * P - P <= fac * val < TWO32 * P)
  }

  /** What the precomputation finds for a divisor that is not a power of two. */
  lemma Precompute(n: nat, sft: nat, quot: nat)
    requires sft <= 31 && Pow2(sft) < n < 2 * Pow2(sft) && n < TWO32
    requires quot == (Pow2(sft) * TWO32) / n
    ensures 0 < quot < TWO32 - 1
    ensures var r := (quot * n + n) % TWO32;
            && (r <= Pow2(sft) ==> Approximates(n, quot + 1, 0, sft))
            && (r > Pow2(sft) ==> Approximates(n, quot, quot, sft))
  {
    var m := Pow2(sft);
    Pow2Mono(sft, 31);
    Pow2Known();
    Leftover(m * TWO32, n, quot);
    var rem := m * TWO32 - quot * n;
    if rem == 0 {
      Pow2Add(32, sft);
      NoFactor(n, quot, 32 + sft, sft);
      assert false;
    }
    QuotientBound(m, n, quot);
    PrecomputeChoice(m, n, quot, rem);
  }

  lemma Leftover(wide: nat, n: nat, quot: int)
    requires 0 < n && quot == wide / n
    ensures 0 <= wide - quot * n < n
    ensures n <= wide ==> 0 < quot
  {
  }

  lemma PrecomputeChoice(m: nat, n: nat, quot: nat, rem: nat)
    requires 0 < m < n < 2 * m && n < TWO32 && quot * n == m * TWO32 - rem && 0 < rem < n
    ensures var r := (quot * n + n) % TWO32;
            && (r <= m ==> m * TWO32 < (quot + 1) * n <= m * TWO32 + m)
            && (r > m ==> m * TWO32 - m <= quot * n < m * TWO32)
  {
    var product := quot * n;
    assert (quot + 1) * n == product + n;
    Wrap(m, n - rem);
  }

  lemma PowerOfTwo(n: nat, sft: nat)
    requires sft <= 31 && n == Pow2(sft)
    ensures Approximates(n, 0xffff_ffff, 0xffff_ffff, sft)
  {
  }

  /** The largest power of two that does not exceed `n`. */
  method TopBit(n: u32) returns (m: u32, sft: nat)
    requires n > 0
    ensures sft <= 31 && m == Pow2(sft) && m <= n < 2 * m
  {
    Pow2Known();
    sft := 31;
    m := 0x8000_0000;
    while m > n
      invariant sft <= 31 && m == Pow2(sft)
      invariant n < 2 * m
    {
      m := m / 2;
      sft := sft - 1;
    }
  }

  class Divisor {
    var val: u32
    var fac: u32
    var tip: u32
    var sft: nat

    constructor ()
      ensures val == 0
    {
      val, fac, tip, sft := 0, 0, 0, 0;
    }

    ghost predicate Valid()
      reads this
    {
      val != 0 ==> Approximates(val, fac, tip, sft)
    }

    /** The assignment operator: precomputes shift, factor and tip. */
    method Set(n: u32)
      modifies this
      ensures Valid() && val == n
    {
      hide Approximates, Pow2;
      val := n;
      fac, sft, tip := 0, 0, 0;
      if n == 0 { return; }
      var m: u32;
      m, sft := TopBit(n);
      fac, tip := 0xffff_ffff, 0xffff_ffff;
      if m == n {
        PowerOfTwo(n, sft);
        return;
      }
      var quot := (m * TWO32) / n;
      Precompute(n, sft, quot);
      fac := quot;
      var r := (fac * n + n) % TWO32;
      if r <= m {
        fac := fac + 1;
        tip := 0;
      } else {
        tip := fac;
      }
    }

    /** The multiply-and-shift of the source, in 64-bit arithmetic. */
    function Div(m: u32): int
      reads this
    {
      MultiplyShift(fac, m, tip, sft)
    }

    function Mod(m: u32): int
      reads this
    {
      (m - val * Div(m)) % TWO32
    }
  }

  function MultiplyShift(fac: int, m: int, tip: int, sft: nat): int {
    ((fac * m + tip) % TWO64) / Pow2(32 + sft)
  }

  /** The 32-bit product `fac * n + n` keeps only what exceeds the shifted power. */
  lemma Wrap(m: nat, t: nat)
    requires t < TWO32
    ensures (m * TWO32 + t) % TWO32 == t
  {
  }

  lemma QuotientBound(m: nat, n: nat, quot: nat)
    requires 0 < m < n < TWO32 && m <= 0x8000_0000
    requires quot * n <= m * TWO32
    ensures quot < TWO32 - 1
  {
    if quot >= TWO32 - 1 {
      MulMono(n, TWO32 - 1, quot);
      assert false;
    }
  }

  lemma NoOverflow(fac: u32, m: u32, tip: u32)
    ensures 0 <= fac * m + tip < TWO64
    ensures (fac * m + tip) % TWO64 == fac * m + tip
  {
    MulMono(fac, m, 0xffff_ffff);
    MulMono(fac, 0, m);
    MulMono(0xffff_ffff, fac, 0xffff_ffff);
  }

  lemma MultiplyShiftExact(val: u32, fac: u32, tip: u32, sft: nat, m: u32)
    requires Approximates(val, fac, tip, sft)
    ensures fac * m + tip < TWO64
    ensures MultiplyShift(fac, m, tip, sft) == m / val
  {
    var P := Pow2(sft);
    NoOverflow(fac, m, tip);
    assert Pow2(32 + sft) == TWO32 * P by { Pow2Add(32, sft); Pow2Known(); }
    if tip == 0 {
      RoundedUp(m, val, P, fac, fac * val - TWO32 * P);
    } else {
      RoundedDown(m, val, P, fac, TWO32 * P - fac * val);
    }
  }

  /** Reciprocal division is exact for every 32-bit dividend, and nothing overflows 64 bits. */
  lemma DivExact(d: Divisor, m: u32)
    requires d.Valid() && d.val != 0
    ensures d.fac * m + d.tip < TWO64
    ensures d.Div(m) == m / d.val
    ensures d.Mod(m) == m % d.val
  {
    MultiplyShiftExact(d.val, d.fac, d.tip, d.sft, m);
    Remainder(m, d.val);
  }

  lemma Remainder(m: u32, n: u32)
    requires n > 0
    ensures (m - n * (m / n)) % TWO32 == m % n
  {
    assert m - n * (m / n) == m % n;
  }
}
