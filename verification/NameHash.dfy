/** The hash of gen_numname is a cyclic redundancy check of the long name. */
module NameHash {
  import opened Arith
  import opened LongName
  import opened DirRegister

  /** x^16 + x^12 + x^5 + 1, with a bit for each coefficient. */
  const POLYNOMIAL: nat := 0x1_1021

  /** Product of two polynomials over the two-element field. */
  function Product(a: nat, b: nat): nat
    decreases b
  {
    if b == 0 then 0 else BitXor(if b % 2 == 1 then a else 0, 2 * Product(a, b / 2))
  }

  /** v is a multiple q of the polynomial with remainder r. */
  ghost predicate Divided(v: nat, q: nat, r: nat) {
    r < 0x1_0000 && BitXor(Product(POLYNOMIAL, q), r) == v
  }

  /** v followed by the lower `bits` bits of wc, the lowest first. */
  function Followed(v: nat, wc: nat, bits: nat): nat
    decreases bits
  {
    if bits == 0 then v else Followed(2 * v + wc % 2, wc / 2, bits - 1)
  }

  /** v followed by the 16 bits of each character of a name. */
  function Message(v: nat, n: seq<WChar>): nat
    decreases |n|
  {
    if n == [] then v else Message(Followed(v, n[0], 16), n[1..])
  }

  // ----- exclusive or -----

  lemma XorHalf(x: nat, y: nat)
    ensures BitXor(x, y) / 2 == BitXor(x / 2, y / 2)
    ensures BitXor(x, y) % 2 == if x % 2 != y % 2 then 1 else 0
  {
  }

  lemma XorDouble(x: nat, y: nat, b: nat)
    requires b <= 1
    ensures BitXor(2 * x, 2 * y + b) == 2 * BitXor(x, y) + b
  {
    XorHalf(2 * x, 2 * y + b);
    hide BitXor;
  }

  /** What is added twice cancels. */
  lemma {:induction false} XorCancel(a: nat, b: nat, c: nat)
    ensures BitXor(BitXor(a, b), BitXor(c, a)) == BitXor(b, c)
    decreases a + b + c
  {
    if a + b + c > 0 {
      XorCancel(a / 2, b / 2, c / 2);
      XorHalf(a, b);
      XorHalf(c, a);
      XorHalf(b, c);
      XorHalf(BitXor(a, b), BitXor(c, a));
      hide BitXor;
    }
  }

  // ----- the remainder -----

  lemma ProductDouble(g: nat, q: nat)
    ensures Product(g, 2 * q) == 2 * Product(g, q)
    ensures Product(g, 2 * q + 1) == BitXor(g, 2 * Product(g, q))
  {
    assert (2 * q) / 2 == q && (2 * q + 1) / 2 == q && (2 * q) % 2 == 0 && (2 * q + 1) % 2 == 1;
    assert BitXor(0, 2 * Product(g, q)) == 2 * Product(g, q);
    hide BitXor;
  }

  /** One step of the hash. */
  lemma HashBitIs(r: nat, b: nat)
    requires r < 0x1_0000 && b <= 1
    ensures HashBit(r, b) < 0x1_0000
    ensures HashBit(r, b) == if 2 * r + b >= 0x1_0000 then BitXor(2 * r + b, POLYNOMIAL) else 2 * r + b
  {
    HashBitBound(r, b);
    hide BitXor;
  }

  /** One more bit. */
  lemma BitDivided(v: nat, q: nat, r: nat, b: nat) returns (q': nat)
    requires Divided(v, q, r) && b <= 1
    ensures Divided(2 * v + b, q', HashBit(r, b))
  {
    hide BitXor, Product, HashBit;
    HashBitIs(r, b);
    q' := if 2 * r + b >= 0x1_0000 then 2 * q + 1 else 2 * q;
    ProductStep(POLYNOMIAL, q, r, b);
  }

  lemma ProductStep(g: nat, q: nat, r: nat, b: nat)
    requires b <= 1
    ensures var v := 2 * BitXor(Product(g, q), r) + b;
      && BitXor(Product(g, 2 * q), 2 * r + b) == v
      && BitXor(Product(g, 2 * q + 1), BitXor(2 * r + b, g)) == v
  {
    var x, a := 2 * r + b, Product(g, q);
    XorDouble(a, r, b);
    ProductDouble(g, q);
    XorCancel(g, 2 * a, x);
    hide BitXor, Product;
  }

  lemma {:induction false} CharDivided(v: nat, q: nat, r: nat, wc: nat, bits: nat) returns (q': nat)
    requires Divided(v, q, r)
    ensures Divided(Followed(v, wc, bits), q', HashChar(r, wc, bits))
    decreases bits
  {
    hide Divided, HashBit;
    HashBitBounded(v, q, r);
    if bits == 0 {
      q' := q;
    } else {
      q' := BitDivided(v, q, r, wc % 2);
      HashBitBound(r, wc % 2);
      q' := CharDivided(2 * v + wc % 2, q', HashBit(r, wc % 2), wc / 2, bits - 1);
    }
  }

  lemma HashBitBounded(v: nat, q: nat, r: nat)
    requires Divided(v, q, r)
    ensures r < 0x1_0000
  {
  }

  lemma {:induction false} NameDivided(v: nat, q: nat, r: nat, n: seq<WChar>) returns (q': nat)
    requires Divided(v, q, r)
    ensures r < 0x1_0000 && Divided(Message(v, n), q', HashName(r, n))
    decreases |n|
  {
    hide Divided, HashChar, Followed;
    HashBitBounded(v, q, r);
    if n == [] {
      q' := q;
    } else {
      q' := CharDivided(v, q, r, n[0], 16);
      q' := NameDivided(Followed(v, n[0], 16), q', HashChar(r, n[0], 16), n[1..]);
    }
  }

  /** Up to 5 the number of a name is its sequence number; from 6 on it is the remainder of the sequence number,
      followed by the name's bits, by the polynomial. */
  lemma NumberIsRemainder(seqNo: nat, n: seq<WChar>)
    requires seqNo < 0x1_0000
    ensures seqNo <= 5 ==> NumberOf(seqNo, n) == seqNo
    ensures seqNo >= 6 ==> exists q: nat :: Divided(Message(seqNo, n), q, NumberOf(seqNo, n))
  {
    ProductNone(POLYNOMIAL);
    var q := NameDivided(seqNo, 0, seqNo, n);
    hide Divided, Message, HashName;
    if seqNo >= 6 {
      assert Divided(Message(seqNo, n), q, NumberOf(seqNo, n));
    }
  }

  // ----- there is only one -----

  lemma ProductUnfold(g: nat, q: nat)
    ensures Product(g, q) == BitXor(if q % 2 == 1 then g else 0, 2 * Product(g, q / 2))
  {
    hide BitXor;
    XorZero(0);
  }

  /** The exclusive or of the quotients goes with that of the products. */
  lemma {:induction false} ProductXor(g: nat, p: nat, q: nat)
    ensures Product(g, BitXor(p, q)) == BitXor(Product(g, p), Product(g, q))
    decreases p + q
  {
    hide BitXor, Product;
    ProductUnfold(g, p);
    ProductUnfold(g, q);
    ProductUnfold(g, BitXor(p, q));
    XorHalf(p, q);
    var a, b := Product(g, p / 2), Product(g, q / 2);
    XorDouble(a, b, 0);
    XorMixed(g, 2 * a, 2 * b);
    XorMixed(0, 2 * a, 2 * b);
    XorNone(2 * a);
    XorNone(2 * b);
    XorNone(2 * BitXor(a, b));
    if p + q > 0 {
      ProductXor(g, p / 2, q / 2);
    } else {
      XorZero(0);
      ProductNone(g);
    }
  }

  lemma XorNone(x: nat)
    ensures BitXor(0, x) == x
  {
  }

  lemma {:induction false} XorZero(x: nat)
    ensures BitXor(x, 0) == x
  {
    if x > 0 {
      XorZero(x / 2);
    }
  }

  lemma {:induction false} XorMixed(g: nat, a: nat, b: nat)
    ensures BitXor(BitXor(g, a), b) == BitXor(g, BitXor(a, b)) == BitXor(a, BitXor(g, b))
    ensures BitXor(BitXor(g, a), BitXor(g, b)) == BitXor(a, b)
    decreases g + a + b
  {
    if g + a + b > 0 {
      XorMixed(g / 2, a / 2, b / 2);
      XorHalf(g, a);
      XorHalf(g, b);
      XorHalf(a, b);
      XorHalf(BitXor(g, a), b);
      XorHalf(g, BitXor(a, b));
      XorHalf(a, BitXor(g, b));
      XorHalf(BitXor(g, a), BitXor(g, b));
      hide BitXor;
    }
  }

  /** A multiple of the polynomial has a bit above the lower sixteen. */
  lemma {:induction false} ProductLarge(g: nat, q: nat)
    requires q > 0 && 0x1_0000 <= g < 0x2_0000
    ensures Product(g, q) >= 0x1_0000
    decreases q
  {
    ProductDouble(g, q / 2);
    if q == 1 {
      assert Product(g, 0) == 0;
      XorZero(g);
    } else {
      ProductLarge(g, q / 2);
      LargePow();
      XorLarge(g, 2 * Product(g, q / 2), 0x2_0000);
      hide BitXor, Product, IsPow2;
    }
  }

  lemma LargePow()
    ensures IsPow2(0x2_0000) && IsPow2(0x1_0000)
  {
    Pow2Times16(1);
    Pow2Times16(0x10);
    Pow2Times16(0x100);
    Pow2Times16(0x1000);
    Pow2Double(0x1_0000);
    hide IsPow2;
  }

  /** A small number does not cancel a bit above it. */
  lemma {:induction false} XorLarge(x: nat, y: nat, n: nat)
    requires IsPow2(n) && x < n <= y
    ensures BitXor(x, y) >= n
    decreases n
  {
    XorHalf(x, y);
    if n > 1 {
      XorLarge(x / 2, y / 2, n / 2);
    }
  }

  lemma {:induction false} XorSmall(x: nat, y: nat, n: nat)
    requires IsPow2(n) && x < n && y < n
    ensures BitXor(x, y) < n
    decreases n
  {
    XorHalf(x, y);
    if n > 1 {
      XorSmall(x / 2, y / 2, n / 2);
    }
  }

  lemma {:induction false} XorPairs(a: nat, r: nat, b: nat, s: nat)
    requires BitXor(a, r) == BitXor(b, s)
    ensures BitXor(a, b) == BitXor(r, s)
    decreases a + r + b + s
  {
    XorHalf(a, r);
    XorHalf(b, s);
    XorHalf(a, b);
    XorHalf(r, s);
    if a + r + b + s > 0 {
      XorPairs(a / 2, r / 2, b / 2, s / 2);
      hide BitXor;
    }
  }

  lemma {:induction false} XorEqual(x: nat, y: nat)
    requires BitXor(x, y) == 0
    ensures x == y
    decreases x
  {
    XorHalf(x, y);
    if x > 0 {
      XorEqual(x / 2, y / 2);
    }
  }

  /** A message has one remainder. */
  lemma OneRemainder(v: nat, q: nat, r: nat, q': nat, r': nat)
    requires Divided(v, q, r) && Divided(v, q', r')
    ensures r == r'
  {
    hide BitXor, Product, IsPow2;
    XorPairs(Product(POLYNOMIAL, q), r, Product(POLYNOMIAL, q'), r');
    ProductXor(POLYNOMIAL, q, q');
    LargePow();
    XorSmall(r, r', 0x1_0000);
    if BitXor(q, q') > 0 {
      ProductLarge(POLYNOMIAL, BitXor(q, q'));
    }
    ProductNone(POLYNOMIAL);
    XorEqual(r, r');
  }

  lemma ProductNone(g: nat)
    ensures Product(g, 0) == 0
  {
  }
}
