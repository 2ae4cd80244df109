/** Machine arithmetic of the C sources: bytes, 32-bit words, bit masks, and the
    division facts the sector and cluster computations rest on. */
module Arith {

  type Byte = x: int | 0 <= x < 256

  /** Number of values of a DWORD. */
  const W32: nat := 0x1_0000_0000

  ghost predicate Distinct(s: seq<nat>) {
    forall i, j :: 0 <= i < j < |s| ==> s[i] != s[j]
  }

  /** LD_WORD of two bytes. */
  function LdWord(b0: Byte, b1: Byte): (r: nat)
    ensures r < 0x1_0000
  {
    b0 + 0x100 * b1
  }

  /** LD_DWORD of four bytes. */
  function LdDword(b0: Byte, b1: Byte, b2: Byte, b3: Byte): (r: nat)
    ensures r < W32
  {
    b0 + 0x100 * b1 + 0x1_0000 * b2 + 0x100_0000 * b3
  }

  /** Unsigned 32-bit subtraction, with wrap-around. */
  function Sub32(a: int, b: int): (r: nat)
    ensures r < W32
  {
    (a - b) % W32
  }

  /** An unsigned range test `a - lo < len` selects exactly [lo, lo + len). */
  lemma RangeTest(a: nat, lo: nat, len: nat)
    requires a < W32 && lo + len <= W32
    ensures Sub32(a, lo) < len <==> lo <= a < lo + len
  {
  }

  function Min(a: int, b: int): int {
    if a <= b then a else b
  }

  function Max(a: int, b: int): int {
    if a <= b then b else a
  }

  // ----- bitwise operators -----

  predicate IsPow2(n: nat)
  {
    n == 1 || (n > 0 && n % 2 == 0 && IsPow2(n / 2))
  }

  /** Bitwise `x & y`. */
  function BitAnd(x: nat, y: nat): nat
    decreases x
  {
    if x == 0 || y == 0 then 0
    else 2 * BitAnd(x / 2, y / 2) + (if x % 2 == 1 && y % 2 == 1 then 1 else 0)
  }

  lemma {:induction false} AndBelow(x: nat, y: nat)
    ensures BitAnd(x, y) <= y
    decreases x
  {
    if x != 0 && y != 0 {
      AndBelow(x / 2, y / 2);
    }
  }

  /** Bitwise `x | y`. */
  function BitOr(x: nat, y: nat): nat
    decreases x
  {
    if x == 0 then y
    else 2 * BitOr(x / 2, y / 2) + (if x % 2 == 1 || y % 2 == 1 then 1 else 0)
  }

  /** Bitwise `x ^ y`. */
  function BitXor(x: nat, y: nat): nat
    decreases x
  {
    if x == 0 then y
    else 2 * BitXor(x / 2, y / 2) + (if x % 2 != y % 2 then 1 else 0)
  }

  /** Two numbers with the same top bit lose it. */
  lemma {:induction false} XorTop(x: nat, y: nat, n: nat)
    requires IsPow2(n) && n <= x < 2 * n && n <= y < 2 * n
    ensures BitXor(x, y) < n
    decreases n
  {
    if n == 1 {
      assert x == y == 1;
    } else {
      XorTop(x / 2, y / 2, n / 2);
    }
  }

  lemma HalvedMod(x: nat, m: nat)
    requires m > 0
    ensures x % (2 * m) == 2 * ((x / 2) % m) + x % 2
  {
    var q, r := (x / 2) / m, (x / 2) % m;
    assert x / 2 == q * m + r;
    assert x == q * (2 * m) + (2 * r + x % 2);
    DivModUnique(x, 2 * m, q, 2 * r + x % 2);
  }

  /** Masking with `n - 1` is reduction modulo a power of two. */
  lemma {:induction false} MaskIsMod(x: nat, n: nat)
    requires IsPow2(n)
    ensures BitAnd(x, n - 1) == x % n
    decreases n
  {
    if n == 1 {
      assert BitAnd(x, 0) == 0;
    } else if x == 0 {
      assert BitAnd(x, n - 1) == 0;
    } else {
      var m := n / 2;
      MaskIsMod(x / 2, m);
      HalvedMod(x, m);
      assert (n - 1) / 2 == m - 1 && (n - 1) % 2 == 1;
    }
  }

  /** Inside an M-bit word, a mask and its complement split x. */
  lemma {:induction false} ComplementMask(x: nat, y: nat, top: nat)
    requires IsPow2(top) && x < top && y < top
    ensures BitAnd(x, top - 1 - y) == x - BitAnd(x, y)
    decreases top
  {
    if top == 1 || x == 0 {
    } else {
      ComplementMask(x / 2, y / 2, top / 2);
      assert (top - 1 - y) / 2 == top / 2 - 1 - y / 2;
      if y == 0 {
        assert BitAnd(x / 2, y / 2) == 0;
      }
      if top - 1 - y == 0 {
        assert BitAnd(x / 2, (top - 1 - y) / 2) == 0;
      }
    }
  }

  lemma Pow2Double(n: nat)
    requires IsPow2(n)
    ensures IsPow2(2 * n)
  {
  }

  lemma Pow2One()
    ensures IsPow2(1)
  {
  }

  lemma Pow2Times16(n: nat)
    requires IsPow2(n)
    ensures IsPow2(16 * n)
  {
    hide IsPow2;
    Pow2Double(n);
    Pow2Double(2 * n);
    Pow2Double(4 * n);
    Pow2Double(8 * n);
  }

  lemma W32IsPow2()
    ensures IsPow2(W32)
  {
    Pow2Times16(1);
    Pow2Times16(0x10);
    Pow2Times16(0x100);
    Pow2Times16(0x1000);
    Pow2Times16(0x1_0000);
    Pow2Times16(0x10_0000);
    Pow2Times16(0x100_0000);
    Pow2Times16(0x1000_0000);
  }

  /** `x & ~(n - 1)` on 32-bit words rounds down to a multiple of n. */
  lemma ClearMask(x: nat, n: nat)
    requires IsPow2(n) && x < W32 && n <= W32
    ensures BitAnd(x, W32 - n) == x - x % n
  {
    W32IsPow2();
    ComplementMask(x, n - 1, W32);
    MaskIsMod(x, n);
  }

  /** Or-ing bits below n onto a multiple of n is addition. */
  lemma {:induction false} OrIsSum(x: nat, y: nat, n: nat)
    requires IsPow2(n) && x < n && y % n == 0
    ensures BitOr(x, y) == x + y
    decreases n
  {
    if x == 0 {
    } else {
      HalvedMod(y, n / 2);
      assert y % n == 2 * ((y / 2) % (n / 2)) + y % 2;
      OrIsSum(x / 2, y / 2, n / 2);
    }
  }

  /** Or-ing bits onto a multiple of n works above and below n apart. */
  lemma {:induction false} OrSplit(x: nat, y: nat, n: nat)
    requires n > 0 && IsPow2(n) && y % n == 0
    ensures BitOr(x, y) == x % n + Times(n, BitOr(Quotient(x, n), Quotient(y, n)))
    decreases n
  {
    hide BitOr;
    if n == 1 {
    } else {
      var m := n / 2;
      assert n == 2 * m && IsPow2(m);
      hide IsPow2;
      HalvedMod(y, m);
      OrSplit(x / 2, y / 2, m);
      OrHalves(x, y);
      HalvedMod(x, m);
      HalvedDiv(x, m);
      HalvedDiv(y, m);
      hide Quotient;
      OrDouble(m, BitOr(Quotient(x, n), Quotient(y, n)));
    }
  }

  lemma OrDouble(m: nat, b: nat)
    ensures 2 * Times(m, b) == Times(2 * m, b)
  {
  }

  lemma OrHalves(x: nat, y: nat)
    requires y % 2 == 0
    ensures BitOr(x, y) == 2 * BitOr(x / 2, y / 2) + x % 2
  {
  }

  lemma HalvedDiv(x: nat, m: nat)
    requires m > 0
    ensures Quotient(x, 2 * m) == Quotient(x / 2, m)
  {
    var q, r := (x / 2) / m, (x / 2) % m;
    assert x / 2 == q * m + r;
    DivModUnique(x, 2 * m, q, 2 * r + x % 2);
  }

  lemma {:induction false} OrBelow(x: nat, y: nat, n: nat)
    requires IsPow2(n) && x < n && y < n
    ensures BitOr(x, y) < n
    decreases n
  {
    if x == 0 {
    } else {
      OrBelow(x / 2, y / 2, n / 2);
    }
  }

  lemma {:induction false} OrCommutes(x: nat, y: nat)
    ensures BitOr(x, y) == BitOr(y, x)
    decreases x
  {
    if x == 0 {
      OrZero(y);
    } else if y == 0 {
      OrZero(x);
    } else {
      OrCommutes(x / 2, y / 2);
    }
  }

  lemma {:induction false} OrZero(x: nat)
    ensures BitOr(x, 0) == x
    decreases x
  {
    if x == 0 {
    } else {
      OrZero(x / 2);
    }
  }

  // ----- multiplication and division -----

  /** A product, kept together where a proof need not look into it. */
  function Times(a: nat, b: nat): nat {
    a * b
  }

  /** A quotient, kept together likewise. */
  function Quotient(x: nat, b: nat): nat {
    if b == 0 then 0 else x / b
  }

  lemma MulMonotone(a: int, b: int, d: nat)
    requires a <= b
    ensures a * d <= b * d
  {
  }

  /** x == q * d + r with 0 <= r < d determines q and r. */
  lemma DivModUnique(x: int, d: nat, q: int, r: int)
    requires d > 0 && x == q * d + r && 0 <= r < d
    ensures x / d == q && x % d == r
  {
    var q', r' := x / d, x % d;
    assert x == q' * d + r' && 0 <= r' < d;
    assert (q + 1) * d == q * d + d && (q' + 1) * d == q' * d + d;
    if q < q' {
      MulMonotone(q + 1, q', d);
      assert false;
    } else if q' < q {
      MulMonotone(q' + 1, q, d);
      assert false;
    }
  }

  lemma ModShift(x: int, q: int, m: nat)
    requires m > 0
    ensures (x + q * m) % m == x % m
  {
    assert x + q * m == (x / m + q) * m + x % m;
    DivModUnique(x + q * m, m, x / m + q, x % m);
  }

  lemma DivShift(x: int, q: int, m: nat)
    requires m > 0
    ensures (x + q * m) / m == x / m + q
  {
    assert x + q * m == (x / m + q) * m + x % m;
    DivModUnique(x + q * m, m, x / m + q, x % m);
  }

  lemma DivLess(x: nat, d: nat, q: nat)
    requires d > 0 && x < q * d
    ensures x / d < q
  {
    if q <= x / d {
      MulMonotone(q, x / d, d);
      assert false;
    }
  }

  lemma DivMonotone(x: nat, y: nat, d: nat)
    requires d > 0 && x <= y
    ensures x / d <= y / d
  {
    var q := y / d;
    assert (q + 1) * d == q * d + d;
    DivLess(x, d, q + 1);
  }
}
