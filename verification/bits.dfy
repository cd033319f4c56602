/** Bitwise operators on non-negative integers, and the bit trick behind the growth of a Writer's buffer. */
module Bits {

  /** n >> k */
  function Shr(n: nat, k: nat): (r: nat)
    ensures r <= n
  {
    if k == 0 then n else Shr(n / 2, k - 1)
  }

  /** a | b, digit by digit */
  function Or(a: nat, b: nat): (r: nat)
    ensures a <= r && b <= r
    decreases a + b
  {
    if a == 0 && b == 0 then 0
    else 2 * Or(a / 2, b / 2) + (if a % 2 == 1 || b % 2 == 1 then 1 else 0)
  }

  function Pow2(k: nat): (p: nat)
    ensures p > 0
  {
    if k == 0 then 1 else 2 * Pow2(k - 1)
  }

  /** a ^ b, digit by digit */
  function Xor(a: nat, b: nat): (r: nat)
    decreases a + b
  {
    if a == 0 && b == 0 then 0
    else 2 * Xor(a / 2, b / 2) + (if a % 2 != b % 2 then 1 else 0)
  }

  lemma {:induction false} XorTwice(a: nat, b: nat)
    ensures Xor(Xor(a, b), b) == a
    decreases a + b
  {
    if a != 0 || b != 0 {
      XorTwice(a / 2, b / 2);
      assert Xor(a, b) / 2 == Xor(a / 2, b / 2);
    }
  }

  lemma XorHalf(a: nat, b: nat)
    ensures Xor(a, b) / 2 == Xor(a / 2, b / 2)
    ensures Xor(a, b) % 2 == if a % 2 != b % 2 then 1 else 0
  {}

  /** The binary digit that counts multiples of 2 to the power of k. */
  function Digit(n: nat, k: nat): nat
  {
    n / Pow2(k) % 2
  }

  /** A digit of an exclusive or is set exactly if it is set in one of the two numbers, but not in both. */
  lemma {:induction false} XorDigit(a: nat, b: nat, k: nat)
    ensures Digit(Xor(a, b), k) == if Digit(a, k) == Digit(b, k) then 0 else 1
    decreases k
  {
    hide Xor, Digit;
    var c := Xor(a, b);
    XorHalf(a, b);
    if k > 0 {
      XorDigit(a / 2, b / 2, k - 1);
      LaterDigit(a, k);
      LaterDigit(b, k);
      LaterDigit(c, k);
    } else {
      FirstDigit(a);
      FirstDigit(b);
      FirstDigit(c);
    }
  }

  lemma FirstDigit(n: nat)
    ensures Digit(n, 0) == n % 2
  {}

  lemma {:induction false} LaterDigit(n: nat, k: nat)
    requires k > 0
    ensures Digit(n, k) == Digit(n / 2, k - 1)
  {
    DivideBy(n, 2, Pow2(k - 1));
  }

  /** Dividing by one number and then by another is dividing by their product. */
  lemma {:induction false} DivideBy(n: nat, m: nat, p: nat)
    requires m > 0 && p > 0
    ensures m * p > 0 && n / m / p == n / (m * p)
  {
    var q, r := n / m, n % m;
    var a, b := q / p, q % p;
    InTwoSteps(n, m, p, q, r, a, b);
    Quotient(n, m * p, a, m * b + r);
  }

  lemma {:induction false} InTwoSteps(n: nat, m: nat, p: nat, q: nat, r: nat, a: nat, b: nat)
    requires n == m * q + r && r < m && q == p * a + b && b < p
    ensures n == (m * p) * a + (m * b + r) && m * b + r < m * p
  {
    Regroup(m, p, a, b);
    Multiples(m, b + 1, p);
    assert m * (b + 1) == m * b + m;
  }

  lemma Regroup(m: nat, p: nat, a: nat, b: nat)
    ensures m * (p * a + b) == (m * p) * a + m * b
  {}

  lemma {:induction false} Quotient(n: nat, p: nat, a: nat, b: nat)
    requires n == p * a + b && b < p
    ensures n / p == a
  {
    var c := n / p;
    assert n == p * c + n % p;
    assert p * (c + 1) == p * c + p && p * (a + 1) == p * a + p;
    if c < a {
      Multiples(p, c + 1, a);
    } else if a < c {
      Multiples(p, a + 1, c);
    }
  }

  lemma Multiples(p: nat, a: nat, b: nat)
    requires a <= b
    ensures p * a <= p * b
  {}

  /** The digits of a followed by the k low digits of c. */
  function Join(a: nat, c: nat, k: nat): nat
  {
    if k == 0 then a else 2 * Join(a, c / 2, k - 1) + c % 2
  }

  lemma {:induction false} XorJoin(a: nat, b: nat, c: nat, d: nat, k: nat)
    ensures Xor(Join(a, c, k), Join(b, d, k)) == Join(Xor(a, b), Xor(c, d), k)
  {
    hide Xor;
    if k > 0 {
      XorJoin(a, b, c / 2, d / 2, k - 1);
      JoinHalf(a, c, k);
      JoinHalf(b, d, k);
      XorHalf(Join(a, c, k), Join(b, d, k));
      XorHalf(c, d);
    }
  }

  lemma JoinHalf(a: nat, c: nat, k: nat)
    requires k > 0
    ensures Join(a, c, k) / 2 == Join(a, c / 2, k - 1) && Join(a, c, k) % 2 == c % 2
  {}

  lemma TwiceTimes(q: nat, a: nat)
    ensures 2 * q * a == 2 * (q * a)
  {}

  lemma {:induction false} JoinSum(a: nat, c: nat, k: nat, p: nat)
    requires p == Pow2(k) && c < p
    ensures Join(a, c, k) == p * a + c
    decreases k
  {
    if k > 0 {
      var q := Pow2(k - 1);
      JoinSum(a, c / 2, k - 1, q);
      TwiceTimes(q, a);
      assert c == 2 * (c / 2) + c % 2;
    }
  }

  lemma {:induction false} XorBound(c: nat, d: nat, k: nat)
    requires c < Pow2(k) && d < Pow2(k)
    ensures Xor(c, d) < Pow2(k)
    decreases k
  {
    if k > 0 {
      XorBound(c / 2, d / 2, k - 1);
    }
  }

  /** XOR works on each byte by itself. */
  lemma {:induction false} XorByte(a: nat, b: nat, c: nat, d: nat)
    requires c < 256 && d < 256
    ensures Xor(256 * a + c, 256 * b + d) == 256 * Xor(a, b) + Xor(c, d)
    ensures Xor(c, d) < 256
  {
    assert Pow2(8) == 256;
    XorBound(c, d, 8);
    XorJoin(a, b, c, d, 8);
    JoinSum(a, c, 8, 256);
    JoinSum(b, d, 8, 256);
    JoinSum(Xor(a, b), Xor(c, d), 8, 256);
  }

  lemma {:induction false} OrZero(n: nat)
    ensures Or(n, 0) == n
  {
    if n > 0 {
      OrZero(n / 2);
    }
  }

  lemma {:induction false} OrBound(c: nat, d: nat, k: nat)
    requires c < Pow2(k) && d < Pow2(k)
    ensures Or(c, d) < Pow2(k)
    decreases k
  {
    if k > 0 {
      OrBound(c / 2, d / 2, k - 1);
    }
  }

  /** Where one operand ends in k zeros, or-ing k digits onto it just writes them there. */
  lemma {:induction false} OrDisjoint(a: nat, c: nat, k: nat)
    requires c < Pow2(k)
    ensures Or(Join(a, 0, k), c) == Join(a, c, k)
    decreases k
  {
    if k == 0 {
      OrZero(a);
    } else {
      OrDisjoint(a, c / 2, k - 1);
    }
  }

  /** n |= n >> k */
  function Smear(n: nat, k: nat): nat
  {
    Or(n, Shr(n, k))
  }

  /** The least power of two strictly greater than n, for n below 2^62. */
  function CeilPowerOfTwo(n: nat): nat
  {
    var n := Smear(n, 1);
    var n := Smear(n, 2);
    var n := Smear(n, 4);
    var n := Smear(n, 8);
    var n := Smear(n, 16);
    var n := Smear(n, 32);
    n + 1
  }

  predicate IsPowerOfTwo(n: nat)
  {
    n == 1 || (n > 1 && n % 2 == 0 && IsPowerOfTwo(n / 2))
  }

  /** The number of binary digits of n. */
  function Width(n: nat): nat
  {
    if n == 0 then 0 else 1 + Width(n / 2)
  }

  predicate AllOnes(n: nat)
  {
    n == 0 || (n % 2 == 1 && AllOnes(n / 2))
  }

  /** The m leading digits of n (all its digits when it has fewer) are ones. */
  predicate LeadingOnes(n: nat, m: nat)
  {
    if Width(n) <= m then AllOnes(n) else LeadingOnes(n / 2, m)
  }

  lemma {:induction false} LeadingDigitIsOne(n: nat, m: nat, i: nat)
    requires LeadingOnes(n, m) && Width(n) - m <= i < Width(n)
    ensures Shr(n, i) % 2 == 1
    decreases n
  {
    if i > 0 {
      if Width(n) <= m {
        assert LeadingOnes(n / 2, m);
      }
      LeadingDigitIsOne(n / 2, m, i - 1);
    }
  }

  lemma {:induction false} ShrHalf(n: nat, k: nat)
    ensures Shr(n, k) / 2 == Shr(n / 2, k)
    ensures Width(n) <= k ==> Shr(n, k) == 0
    decreases k
  {
    if k > 0 {
      ShrHalf(n / 2, k - 1);
    }
  }

  /** One line of the trick doubles the run of leading ones and keeps the width. */
  lemma {:induction false} SmearStep(n: nat, m: nat)
    requires m > 0 && LeadingOnes(n, m)
    ensures LeadingOnes(Smear(n, m), 2 * m)
    ensures Width(Smear(n, m)) == Width(n)
    decreases n
  {
    var r := Smear(n, m);
    ShrHalf(n, m);
    if Width(n) <= m {
      OrZero(n);
    } else {
      assert r / 2 == Or(n / 2, Shr(n / 2, m));
      SmearStep(n / 2, m);
      if Width(n) <= 2 * m {
        LeadingDigitIsOne(n, m, m);
        assert r % 2 == 1;
      }
    }
  }

  lemma {:induction false} LeadingOne(n: nat)
    ensures LeadingOnes(n, 1)
  {
    if Width(n) > 1 {
      LeadingOne(n / 2);
    } else if n > 0 {
      assert Width(n / 2) == 0;
    }
  }

  /** A number of ones as wide as n is the largest number of that width. */
  lemma {:induction false} OnesOfWidth(r: nat, n: nat)
    requires AllOnes(r) && Width(r) == Width(n)
    ensures IsPowerOfTwo(r + 1)
    ensures n <= r && (n > 0 ==> r + 1 <= 2 * n)
  {
    if r > 0 {
      OnesOfWidth(r / 2, n / 2);
      assert (r + 1) / 2 == r / 2 + 1;
    }
  }

  lemma {:induction false} Pow2Byte(k: nat)
    ensures Pow2(k + 8) == 256 * Pow2(k)
  {
    assert Pow2(k + 4) == 16 * Pow2(k) by { assert Pow2(k + 2) == 4 * Pow2(k); }
    assert Pow2(k + 8) == 16 * Pow2(k + 4) by { assert Pow2(k + 6) == 4 * Pow2(k + 4); }
  }

  lemma {:induction false} Pow2Of62()
    ensures Pow2(62) == 0x4000_0000_0000_0000
  {
    assert Pow2(6) == 64;
    Pow2Byte(6);
    Pow2Byte(14);
    Pow2Byte(22);
    Pow2Byte(30);
    Pow2Byte(38);
    Pow2Byte(46);
    Pow2Byte(54);
  }

  lemma {:induction false} WidthBound(n: nat, k: nat)
    requires n < Pow2(k)
    ensures Width(n) <= k
    decreases k
  {
    if n > 0 {
      WidthBound(n / 2, k - 1);
    }
  }

  /** The bit smearing of the source gives a power of two just above n. */
  lemma {:induction false} CeilPowerOfTwoIsAbove(n: nat)
    requires n < 0x4000_0000_0000_0000
    ensures IsPowerOfTwo(CeilPowerOfTwo(n))
    ensures n < CeilPowerOfTwo(n)
    ensures n > 0 ==> CeilPowerOfTwo(n) <= 2 * n
  {
    hide Smear, Shr, Or, LeadingOnes;
    Pow2Of62();
    WidthBound(n, 62);
    LeadingOne(n);
    SmearStep(n, 1);
    var a := Smear(n, 1);
    SmearStep(a, 2);
    var b := Smear(a, 2);
    SmearStep(b, 4);
    var c := Smear(b, 4);
    SmearStep(c, 8);
    var d := Smear(c, 8);
    SmearStep(d, 16);
    var e := Smear(d, 16);
    SmearStep(e, 32);
    var f := Smear(e, 32);
    OnesOfWidth(f, n);
  }

  /** It gives the least power of two strictly greater than n. */
  lemma {:induction false} CeilPowerOfTwoIsLeast(n: nat)
    requires n < 0x4000_0000_0000_0000
    ensures IsPowerOfTwo(CeilPowerOfTwo(n)) && n < CeilPowerOfTwo(n)
    ensures forall p: nat :: IsPowerOfTwo(p) && n < p ==> CeilPowerOfTwo(n) <= p
  {
    hide CeilPowerOfTwo, IsPowerOfTwo;
    CeilPowerOfTwoIsAbove(n);
    if n == 0 {
      CeilOfZero();
    }
    forall p: nat | IsPowerOfTwo(p) && n < p
      ensures CeilPowerOfTwo(n) <= p
    {
      if p < CeilPowerOfTwo(n) {
        PowersDouble(p, CeilPowerOfTwo(n));
      }
    }
  }

  /** The least power of two strictly greater than n. */
  function NextPowerOfTwo(n: nat): (p: nat)
    ensures n < p && (n > 0 ==> p <= 2 * n) && IsPowerOfTwo(p)
  {
    if n == 0 then 1 else 2 * NextPowerOfTwo(n / 2)
  }

  /** There is one power of two from above n up to 2 * n. */
  lemma {:induction false} PowerOfTwoAbove(n: nat, p: nat, q: nat)
    requires IsPowerOfTwo(p) && IsPowerOfTwo(q)
    requires n < p && n < q && (n > 0 ==> p <= 2 * n && q <= 2 * n) && (n == 0 ==> p == 1 && q == 1)
    ensures p == q
  {
    if n > 0 {
      assert n == 1 || n / 2 > 0;
      if n == 1 {
        assert p == 2 && q == 2;
      } else {
        PowerOfTwoAbove(n / 2, p / 2, q / 2);
      }
    }
  }

  /** The bit trick computes it for any length a buffer can have. */
  lemma {:induction false} CeilPowerOfTwoIsNext(n: nat)
    requires n < 0x4000_0000_0000_0000
    ensures CeilPowerOfTwo(n) == NextPowerOfTwo(n)
  {
    hide CeilPowerOfTwo;
    CeilPowerOfTwoIsAbove(n);
    if n == 0 {
      CeilOfZero();
    }
    PowerOfTwoAbove(n, CeilPowerOfTwo(n), NextPowerOfTwo(n));
  }

  lemma {:induction false} CeilOfZero()
    ensures CeilPowerOfTwo(0) == 1
  {
    forall k
      ensures Smear(0, k) == 0
    {
      ShrHalf(0, k);
      assert Shr(0, k) == 0;
    }
  }

  /** The next power of two after a greater number is at least twice as large, or the same. */
  lemma {:induction false} PowersDouble(p: nat, q: nat)
    requires IsPowerOfTwo(p) && IsPowerOfTwo(q) && p < q
    ensures 2 * p <= q
  {
    if p > 1 {
      PowersDouble(p / 2, q / 2);
    }
  }
}
