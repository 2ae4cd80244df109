/** The linear congruential generator of uC/LIB: every seed starts a cycle through all 2^31 values. */
module Rand {
  import opened Arith

  const LCG_M: nat := 0x7FFF_FFFF
  const LCG_A: nat := 1103515245
  const LCG_B: nat := 12345
  const SEED_INIT_VAL: nat := 1

  /** Math_RandSeed: each operation of the expression wraps around at 32 bits. */
  function RandSeed(seed: nat): nat {
    ((LCG_A * seed) % W32 + LCG_B) % W32 % (LCG_M + 1)
  }

  /** The n-th number drawn after `seed`. */
  function Drawn(seed: nat, n: nat): nat {
    if n == 0 then seed else RandSeed(Drawn(seed, n - 1))
  }

  class Generator {
    var cur: nat            // Math_RandSeedCur
    ghost var seed: nat     // the seed set last
    ghost var calls: nat    // numbers drawn since

    ghost predicate Valid()
      reads this
    {
      cur < W32 && cur == Drawn(seed, calls)
    }

    /** Math_Init. */
    constructor ()
      ensures Valid() && seed == SEED_INIT_VAL && calls == 0
    {
      cur, seed, calls := SEED_INIT_VAL, SEED_INIT_VAL, 0;
    }

    /** Math_RandSetSeed. */
    method SetSeed(s: nat)
      requires s < W32
      modifies this
      ensures Valid() && seed == s && calls == 0
    {
      cur, seed, calls := s, s, 0;
    }

    /** Math_Rand: the next number of the sequence that the seed started. */
    method Next() returns (r: nat)
      requires Valid()
      modifies this
      ensures Valid() && seed == old(seed) && calls == old(calls) + 1
      ensures r == Drawn(seed, calls) <= 0x7FFF_FFFF
      ensures r == cur == (1103515245 * old(cur) + 12345) % 0x8000_0000
    {
      hide RandSeed, Drawn;
      DrawIs(cur, seed, calls);
      r := RandSeed(cur);
      cur, calls := r, calls + 1;
    }
  }

  /** One draw, in numbers. */
  lemma DrawIs(cur: nat, seed: nat, n: nat)
    ensures RandSeed(cur) == (1103515245 * cur + 12345) % 0x8000_0000 <= 0x7FFF_FFFF
    ensures RandSeed(Drawn(seed, n)) == Drawn(seed, n + 1)
  {
    WrapInvisible(cur);
  }

  // ----- the generator as an affine map on the integers -----

  /** Wrapping at 32 bits does not show in the 31 bits that are kept. */
  lemma WrapInvisible(seed: nat)
    ensures RandSeed(seed) == (LCG_A * seed + LCG_B) % (LCG_M + 1)
  {
    var x: nat := LCG_A * seed;
    var q, r := x / W32, x % W32;
    assert x + LCG_B == (r + LCG_B) + (2 * q) * (LCG_M + 1);
    assert (r + LCG_B) % W32 % (LCG_M + 1) == (r + LCG_B) % (LCG_M + 1);
    ModShift(r + LCG_B, 2 * q, LCG_M + 1);
  }

  /** 1 + a + ... + a^(n-1). */
  function PowerSum(n: nat): nat {
    if n == 0 then 0 else 1 + LCG_A * PowerSum(n - 1)
  }

  /** The n-th iterate of x -> a x + b on the integers. */
  function Affine(x: nat, n: nat): nat {
    if n == 0 then x else LCG_A * Affine(x, n - 1) + LCG_B
  }

  /** From the first draw on, the generator is that iterate modulo 2^31. */
  lemma {:induction false} DrawnIsAffine(seed: nat, n: nat)
    ensures Drawn(seed, n) % (LCG_M + 1) == Affine(seed, n) % (LCG_M + 1)
    ensures n > 0 ==> Drawn(seed, n) <= LCG_M
  {
    hide RandSeed;
    if n == 0 {
    } else {
      DrawnIsAffine(seed, n - 1);
      AffineStep(Drawn(seed, n - 1), Affine(seed, n - 1));
    }
  }

  lemma AffineStep(d: nat, f: nat)
    requires d % (LCG_M + 1) == f % (LCG_M + 1)
    ensures RandSeed(d) == (LCG_A * f + LCG_B) % (LCG_M + 1) == RandSeed(d) % (LCG_M + 1)
  {
    WrapInvisible(d);
    hide RandSeed;
    SameAffine(d, f, LCG_M + 1);
  }

  lemma SameAffine(d: nat, f: nat, m: nat)
    requires m > 0 && d % m == f % m
    ensures (LCG_A * d + LCG_B) % m == (LCG_A * f + LCG_B) % m
  {
    var k := f / m - d / m;
    assert d == (d / m) * m + d % m && f == (f / m) * m + f % m;
    assert f == d + k * m;
    assert LCG_A * f + LCG_B == LCG_A * d + LCG_B + (LCG_A * k) * m;
    ModShift(LCG_A * d + LCG_B, LCG_A * k, m);
  }

  /** F^n(x) - x = (1 + a + ... + a^(n-1)) ((a - 1) x + b). */
  lemma {:induction false} AffineShift(x: nat, n: nat)
    ensures Affine(x, n) == x + PowerSum(n) * ((LCG_A - 1) * x + LCG_B)
  {
    if n == 0 {
    } else {
      AffineShift(x, n - 1);
      var s, w := PowerSum(n - 1), (LCG_A - 1) * x + LCG_B;
      assert (1 + LCG_A * s) * w == w + LCG_A * (s * w);
    }
  }

  /** Drawing goes on from the number drawn last. */
  lemma {:induction false} DrawnSplit(seed: nat, m: nat, n: nat)
    ensures Drawn(Drawn(seed, m), n) == Drawn(seed, m + n)
  {
    if n == 0 {
    } else {
      DrawnSplit(seed, m, n - 1);
    }
  }

  // ----- powers of two in the sum -----

  function Pow2(k: nat): (p: nat)
    ensures p > 0
  {
    if k == 0 then 1 else 2 * Pow2(k - 1)
  }

  /** a^n. */
  function Power(n: nat): nat {
    if n == 0 then 1 else LCG_A * Power(n - 1)
  }

  lemma {:induction false} PowerModFour(n: nat)
    ensures Power(n) % 4 == 1
  {
    if n == 0 {
    } else {
      PowerModFour(n - 1);
      var q, p := Power(n - 1) / 4, Power(n);
      hide Power;
      assert p == 4 * (LCG_A * q + LCG_A / 4) + 1;
      DivModUnique(p, 4, LCG_A * q + LCG_A / 4, 1);
    }
  }

  /** S(m + n) = S(m) + a^m S(n). */
  lemma {:induction false} PowerSumSplit(m: nat, n: nat)
    ensures PowerSum(m + n) == PowerSum(m) + Power(m) * PowerSum(n)
  {
    if m == 0 {
    } else {
      PowerSumSplit(m - 1, n);
      SplitStep(PowerSum(m - 1), Power(m - 1), PowerSum(n));
    }
  }

  lemma SplitStep(s: nat, p: nat, t: nat)
    ensures 1 + LCG_A * (s + p * t) == 1 + LCG_A * s + (LCG_A * p) * t
  {
    assert LCG_A * (p * t) == (LCG_A * p) * t;
  }

  lemma {:induction false} PowerSumParity(n: nat)
    ensures PowerSum(n) % 2 == n % 2
  {
    if n == 0 {
    } else {
      PowerSumParity(n - 1);
      ParityStep(PowerSum(n - 1), n);
    }
  }

  lemma ParityStep(s: nat, n: nat)
    requires n > 0 && s % 2 == (n - 1) % 2
    ensures (1 + LCG_A * s) % 2 == n % 2
  {
    var q := s / 2;
    if n % 2 == 1 {
      DivModUnique(1 + LCG_A * s, 2, LCG_A * q, 1);
    } else {
      DivModUnique(1 + LCG_A * s, 2, LCG_A * q + (LCG_A + 1) / 2, 0);
    }
  }

  /** d divides x. */
  ghost predicate Divides(d: nat, x: int)
    requires d > 0
  {
    x % d == 0
  }

  lemma DividesIntro(d: nat, x: int, q: int)
    requires d > 0 && x == q * d
    ensures Divides(d, x)
  {
    DivModUnique(x, d, q, 0);
  }

  lemma DividesElim(d: nat, x: int) returns (q: int)
    requires d > 0 && Divides(d, x)
    ensures x == q * d
  {
    q := x / d;
  }

  /** S(n) contains the factor 2 exactly as often as n does. */
  lemma {:induction false} FactorsOfTwo(k: nat, n: nat)
    ensures Divides(Pow2(k), PowerSum(n)) <==> Divides(Pow2(k), n)
    decreases k
  {
    hide Divides, Power;
    if k == 0 {
      DividesIntro(1, PowerSum(n), PowerSum(n));
      DividesIntro(1, n, n);
    } else {
      PowerSumParity(n);
      if n % 2 == 1 {
        OddNotDivided(k, n);
        OddNotDivided(k, PowerSum(n));
      } else {
        var m := n / 2;
        FactorsOfTwo(k - 1, m);
        var h := SumHalved(m);
        HalveDivides(k, PowerSum(m) * h);
        HalveDivides(k, m);
        OddFactor(k - 1, PowerSum(m), h);
      }
    }
  }

  /** S(2m) = 2 S(m) h with h odd. */
  lemma SumHalved(m: nat) returns (h: nat)
    ensures h % 2 == 1 && PowerSum(2 * m) == 2 * (PowerSum(m) * h)
  {
    hide Power, PowerSum;
    PowerSumSplit(m, m);
    PowerModFour(m);
    h := OddHalf(Power(m));
    Doubled(PowerSum(m), Power(m), h);
  }

  lemma OddHalf(p: nat) returns (h: nat)
    requires p % 4 == 1
    ensures h % 2 == 1 && p == 2 * h - 1
  {
    h := 2 * (p / 4) + 1;
  }

  lemma Doubled(s: nat, p: nat, h: nat)
    requires p == 2 * h - 1
    ensures s + p * s == 2 * (s * h)
  {
  }

  lemma OddNotDivided(k: nat, x: nat)
    requires k > 0 && x % 2 == 1
    ensures !Divides(Pow2(k), x)
  {
    hide Divides;
    if Divides(Pow2(k), x) {
      var q := DividesElim(Pow2(k), x);
      Even(q, Pow2(k - 1));
      assert false;
    }
  }

  lemma Even(q: int, p: int)
    ensures q * (2 * p) % 2 == 0
  {
    assert q * (2 * p) == 2 * (q * p);
  }

  lemma HalveDivides(k: nat, x: nat)
    requires k > 0
    ensures Divides(Pow2(k), 2 * x) <==> Divides(Pow2(k - 1), x)
  {
    hide Divides;
    var p := Pow2(k - 1);
    if Divides(2 * p, 2 * x) {
      var q := DividesElim(2 * p, 2 * x);
      assert q * (2 * p) == 2 * (q * p);
      DividesIntro(p, x, q);
    }
    if Divides(p, x) {
      var q := DividesElim(p, x);
      assert 2 * (q * p) == q * (2 * p);
      DividesIntro(2 * p, 2 * x, q);
    }
  }

  /** An odd factor brings no power of two. */
  lemma {:induction false} OddFactor(k: nat, x: nat, h: nat)
    requires h % 2 == 1
    ensures Divides(Pow2(k), x * h) <==> Divides(Pow2(k), x)
    decreases k
  {
    hide Divides;
    if k == 0 {
      DividesIntro(1, x, x);
      DividesIntro(1, x * h, x * h);
    } else {
      if x % 2 == 1 {
        OddProduct(x, h);
        OddNotDivided(k, x);
        OddNotDivided(k, x * h);
      } else {
        OddFactor(k - 1, x / 2, h);
        HalveDivides(k, x / 2);
        HalveDivides(k, x / 2 * h);
        assert x * h == 2 * (x / 2 * h);
      }
    }
  }

  lemma OddProduct(x: nat, h: nat)
    requires x % 2 == 1 && h % 2 == 1
    ensures x * h % 2 == 1
  {
    assert x * h == 2 * (x / 2 * h) + h;
  }

  // ----- the period -----

  /** Modulo 2^k, n steps of the iterate lead back to the start exactly when 2^k divides n. */
  lemma AffineReturns(k: nat, x: nat, n: nat)
    ensures Affine(x, n) % Pow2(k) == x % Pow2(k) <==> Divides(Pow2(k), n)
  {
    hide Divides, PowerSum, Pow2, Affine;
    AffineShift(x, n);
    FactorsOfTwo(k, n);
    var h := (LCG_A - 1) * x + LCG_B;
    assert h % 2 == 1;
    OddFactor(k, PowerSum(n), h);
    SameResidue(x, PowerSum(n) * h, Pow2(k));
  }

  lemma SameResidue(x: nat, d: nat, m: nat)
    requires m > 0
    ensures (x + d) % m == x % m <==> Divides(m, d)
  {
    if Divides(m, d) {
      var q := DividesElim(m, d);
      ModShift(x, q, m);
    }
    if (x + d) % m == x % m {
      var u, w := x / m, (x + d) / m;
      assert d == (w - u) * m by {
        assert x == u * m + x % m && x + d == w * m + x % m;
      }
      DividesIntro(m, d, w - u);
    }
  }

  /** Numbers that agree modulo 2^31 agree modulo every smaller power of two. */
  lemma {:induction false} Coarser(k: nat, x: nat, y: nat)
    requires k <= 31 && x % (LCG_M + 1) == y % (LCG_M + 1)
    ensures x % Pow2(k) == y % Pow2(k)
    decreases 31 - k
  {
    if k == 31 {
      Pow2At31();
    } else {
      Coarser(k + 1, x, y);
      hide Pow2;
      HalfModulus(x, Pow2(k));
      HalfModulus(y, Pow2(k));
      assert Pow2(k + 1) == 2 * Pow2(k) by { NextPow2(k); }
    }
  }

  lemma NextPow2(k: nat)
    ensures Pow2(k + 1) == 2 * Pow2(k)
  {
  }

  lemma HalfModulus(x: nat, m: nat)
    requires m > 0
    ensures x % (2 * m) % m == x % m
  {
    var q, r := x / (2 * m), x % (2 * m);
    assert x == r + (2 * q) * m;
    ModShift(r, 2 * q, m);
  }

  /** The residue of the i-th number drawn. */
  function Residue(k: nat, seed: nat, i: nat): nat {
    Drawn(seed, i) % Pow2(k)
  }

  /** For every k up to 31 the residue modulo 2^k returns after n draws exactly when 2^k divides n. */
  lemma ReturnsExactly(k: nat, seed: nat, i: nat, n: nat)
    requires k <= 31
    ensures Residue(k, seed, i + n) == Residue(k, seed, i) <==> Divides(Pow2(k), n)
  {
    hide Divides, Pow2, Affine, Drawn;
    var x := Drawn(seed, i);
    DrawnSplit(seed, i, n);
    DrawnIsAffine(x, n);
    Coarser(k, Drawn(x, n), Affine(x, n));
    AffineReturns(k, x, n);
  }

  /** Fewer than 2^k draws apart, residues modulo 2^k differ. */
  lemma ResiduesDistinct(k: nat, seed: nat, i: nat, j: nat)
    requires k <= 31 && i < j < i + Pow2(k)
    ensures Residue(k, seed, i) != Residue(k, seed, j)
  {
    ReturnsExactly(k, seed, i, j - i);
    DivModUnique(j - i, Pow2(k), 0, j - i);
    hide Residue, Pow2;
  }

  /** Residues of the draws from i0 on, n of them. */
  ghost function ResidueSet(k: nat, seed: nat, i0: nat, n: nat): set<nat> {
    set i: nat | i0 <= i < i0 + n :: Residue(k, seed, i)
  }

  lemma {:induction false} ResidueCount(k: nat, seed: nat, i0: nat, n: nat)
    requires k <= 31 && n <= Pow2(k)
    ensures |ResidueSet(k, seed, i0, n)| == n
    decreases n
  {
    hide Pow2, Residue;
    if n == 0 {
      assert ResidueSet(k, seed, i0, 0) == {};
    } else {
      ResidueCount(k, seed, i0, n - 1);
      var r := Residue(k, seed, i0 + n - 1);
      assert ResidueSet(k, seed, i0, n) == ResidueSet(k, seed, i0, n - 1) + {r};
      if r in ResidueSet(k, seed, i0, n - 1) {
        var i: nat :| i0 <= i < i0 + n - 1 && Residue(k, seed, i) == r;
        ResiduesDistinct(k, seed, i, i0 + n - 1);
        assert false;
      }
    }
  }

  /** The numbers below m. */
  ghost function Below(m: nat): (s: set<nat>)
    ensures forall i: nat :: i in s <==> i < m
    ensures |s| == m
  {
    if m == 0 then {} else Below(m - 1) + {m - 1}
  }

  lemma SubsetSameSize(a: set<nat>, b: set<nat>)
    requires a <= b && |a| == |b|
    ensures a == b
  {
    assert b == a + (b - a) && |a + (b - a)| == |a| + |b - a|;
  }

  /**
   * Full period modulo every 2^k up to 2^31: among any 2^k consecutive numbers drawn each residue
   * occurs, at exactly one draw.
   */
  lemma FullPeriod(k: nat, seed: nat, i0: nat, r: nat)
    requires k <= 31 && r < Pow2(k)
    ensures exists i: nat :: i0 <= i < i0 + Pow2(k) && Residue(k, seed, i) == r
    ensures forall i: nat, j: nat :: i0 <= i < j < i0 + Pow2(k) ==> Residue(k, seed, i) != Residue(k, seed, j)
  {
    hide Pow2, Drawn;
    var m := Pow2(k);
    ResidueCount(k, seed, i0, m);
    assert ResidueSet(k, seed, i0, m) <= Below(m);
    SubsetSameSize(ResidueSet(k, seed, i0, m), Below(m));
    assert r in ResidueSet(k, seed, i0, m);
    forall i: nat, j: nat | i0 <= i < j < i0 + m ensures Residue(k, seed, i) != Residue(k, seed, j) {
      ResiduesDistinct(k, seed, i, j);
    }
  }

  /** After 2^k draws the residues repeat. */
  lemma Repeats(k: nat, seed: nat, i: nat)
    requires k <= 31
    ensures Residue(k, seed, i + Pow2(k)) == Residue(k, seed, i)
  {
    hide Pow2, Residue;
    DividesIntro(Pow2(k), Pow2(k), 1);
    ReturnsExactly(k, seed, i, Pow2(k));
  }

  lemma Pow2At31()
    ensures Pow2(31) == LCG_M + 1
  {
    assert Pow2(8) == 0x100;
    assert Pow2(16) == 0x1_0000;
    assert Pow2(24) == 0x100_0000;
  }

  /** A number drawn is its own residue modulo 2^31. */
  lemma DrawnIsResidue(seed: nat, i: nat)
    requires i > 0
    ensures Drawn(seed, i) == Residue(31, seed, i)
  {
    hide Pow2, Affine, Drawn;
    Pow2At31();
    DrawnIsAffine(seed, i);
  }

  /**
   * From any seed, 2^31 consecutive draws give every value from 0 to RAND_LCG_PARAM_M exactly
   * once, and 2^31 draws later the same value comes again.
   */
  lemma EveryValueOnce(seed: nat, i0: nat, r: nat)
    requires i0 > 0 && r <= LCG_M
    ensures exists i: nat :: i0 <= i <= i0 + LCG_M && Drawn(seed, i) == r
    ensures forall i: nat, j: nat :: i0 <= i < j <= i0 + LCG_M ==> Drawn(seed, i) != Drawn(seed, j)
    ensures Drawn(seed, i0 + (LCG_M + 1)) == Drawn(seed, i0)
  {
    hide Pow2, Affine, Drawn, Residue;
    Pow2At31();
    FullPeriod(31, seed, i0, r);
    var i: nat :| i0 <= i < i0 + Pow2(31) && Residue(31, seed, i) == r;
    DrawnIsResidue(seed, i);
    assert i <= i0 + LCG_M && Drawn(seed, i) == r;
    forall i: nat, j: nat | i0 <= i < j <= i0 + LCG_M ensures Drawn(seed, i) != Drawn(seed, j) {
      DrawnIsResidue(seed, i);
      DrawnIsResidue(seed, j);
    }
    Repeats(31, seed, i0);
    DrawnIsResidue(seed, i0);
    DrawnIsResidue(seed, i0 + (LCG_M + 1));
  }
}
