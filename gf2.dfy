/**
 * Polynomials over GF(2), encoded as natural numbers: bit i of a number is
 * the coefficient of x^i.  Addition (and subtraction) of polynomials is the
 * bitwise exclusive or, multiplication by x^k is multiplication by 2^k, and
 * the product of two polynomials is the carry-less product.
 *
 * The same encoding is the value of a C unsigned integer, so the bitwise
 * `^` of the CRC generator and the GF(2) addition of the division it
 * performs are one and the same function here.
 */
module Gf2 {

  /** 2^n, which also encodes the monomial x^n. */
  function Pow2(n: nat): (p: nat)
    ensures p >= 1
  {
    if n == 0 then 1 else 2 * Pow2(n - 1)
  }

  lemma {:induction false} Pow2Add(a: nat, b: nat)
    ensures Pow2(a + b) == Pow2(a) * Pow2(b)
  {
    if a > 0 {
      Pow2Add(a - 1, b);
      calc {
        Pow2(a + b);
        2 * Pow2(a - 1 + b);
        2 * (Pow2(a - 1) * Pow2(b));
        (2 * Pow2(a - 1)) * Pow2(b);
      }
    }
  }

  lemma {:induction false} Pow2Monotone(a: nat, b: nat)
    requires a <= b
    ensures Pow2(a) <= Pow2(b)
  {
    if a < b {
      Pow2Monotone(a, b - 1);
    }
  }

  /** Bitwise exclusive or of two non-negative integers: GF(2) addition. */
  function Xor(a: nat, b: nat): (x: nat)
    decreases a + b
  {
    if a == 0 && b == 0 then 0 else 2 * Xor(a / 2, b / 2) + (if a % 2 == b % 2 then 0 else 1)
  }

  /** The defining equation, without the case distinction at zero. */
  lemma XorUnfold(a: nat, b: nat)
    ensures Xor(a, b) == 2 * Xor(a / 2, b / 2) + (if a % 2 == b % 2 then 0 else 1)
    ensures Xor(a, b) / 2 == Xor(a / 2, b / 2)
    ensures Xor(a, b) % 2 == if a % 2 == b % 2 then 0 else 1
  {
  }

  lemma {:induction false} XorZero(a: nat)
    ensures Xor(a, 0) == a && Xor(0, a) == a
  {
    if a > 0 {
      XorZero(a / 2);
    }
  }

  lemma {:induction false} XorSelf(a: nat)
    ensures Xor(a, a) == 0
  {
    if a > 0 {
      XorSelf(a / 2);
    }
  }

  lemma {:induction false} XorComm(a: nat, b: nat)
    ensures Xor(a, b) == Xor(b, a)
    decreases a + b
  {
    if a + b > 0 {
      XorComm(a / 2, b / 2);
    }
  }

  lemma {:induction false} XorAssoc(a: nat, b: nat, c: nat)
    ensures Xor(Xor(a, b), c) == Xor(a, Xor(b, c))
    decreases a + b + c
  {
    if a + b + c > 0 {
      XorAssoc(a / 2, b / 2, c / 2);
    }
  }

  /** x ^ (x ^ y) == y: adding the same polynomial twice cancels. */
  lemma XorCancel(a: nat, b: nat)
    ensures Xor(a, Xor(a, b)) == b
  {
    XorAssoc(a, a, b);
    XorSelf(a);
    XorZero(b);
  }

  /** Two polynomials whose sum is zero are equal. */
  lemma XorZeroIffEqual(a: nat, b: nat)
    ensures Xor(a, b) == 0 <==> a == b
  {
    XorSelf(a);
    if Xor(a, b) == 0 {
      XorCancel(a, b);
      XorZero(a);
    }
  }

  /** (a ^ b) ^ (c ^ d) == (a ^ c) ^ (b ^ d). */
  lemma XorShuffle(a: nat, b: nat, c: nat, d: nat)
    ensures Xor(Xor(a, b), Xor(c, d)) == Xor(Xor(a, c), Xor(b, d))
  {
    calc {
      Xor(Xor(a, b), Xor(c, d));
      { XorAssoc(a, b, Xor(c, d)); }
      Xor(a, Xor(b, Xor(c, d)));
      { XorAssoc(b, c, d); XorComm(b, c); XorAssoc(c, b, d); }
      Xor(a, Xor(c, Xor(b, d)));
      { XorAssoc(a, c, Xor(b, d)); }
      Xor(Xor(a, c), Xor(b, d));
    }
  }

  /** Exclusive or never sets a bit above the operands' highest bit. */
  lemma {:induction false} XorBound(n: nat, a: nat, b: nat)
    requires a < Pow2(n) && b < Pow2(n)
    ensures Xor(a, b) < Pow2(n)
  {
    if n > 0 {
      XorBound(n - 1, a / 2, b / 2);
      XorUnfold(a, b);
    } else {
      assert a == 0 && b == 0;
    }
  }

  /** If a operand reaches bit n and the other does not, so does their sum. */
  lemma {:induction false} XorAtLeast(n: nat, a: nat, b: nat)
    requires a >= Pow2(n) && b < Pow2(n)
    ensures Xor(a, b) >= Pow2(n)
  {
    if n > 0 {
      XorAtLeast(n - 1, a / 2, b / 2);
      XorUnfold(a, b);
    } else {
      assert b == 0;
      XorZero(a);
    }
  }

  /** x^n when b holds, else 0: a single coefficient at position n. */
  function Monomial(b: bool, n: nat): (m: nat)
    ensures m < Pow2(n + 1)
  {
    if b then Pow2(n) else 0
  }

  /**
   * Exclusive or treats bit n separately from the bits below it:
   * (t1 * 2^n + l1) ^ (t2 * 2^n + l2) == (t1 ^ t2) * 2^n + (l1 ^ l2).
   */
  lemma {:induction false} XorTop(n: nat, a: nat, t1: bool, l1: nat, b: nat, t2: bool, l2: nat)
    requires l1 < Pow2(n) && l2 < Pow2(n)
    requires a == Monomial(t1, n) + l1 && b == Monomial(t2, n) + l2
    ensures Xor(a, b) == Monomial(t1 != t2, n) + Xor(l1, l2)
    decreases n, 1
  {
    if n == 0 {
      XorTopBase(a, t1, b, t2);
    } else {
      XorTopStep(n, a, t1, l1, b, t2, l2);
    }
  }

  lemma {:induction false} XorTopStep(n: nat, a: nat, t1: bool, l1: nat, b: nat, t2: bool, l2: nat)
    requires n > 0 && l1 < Pow2(n) && l2 < Pow2(n)
    requires a == Monomial(t1, n) + l1 && b == Monomial(t2, n) + l2
    ensures Xor(a, b) == Monomial(t1 != t2, n) + Xor(l1, l2)
    decreases n, 0
  {
    HalveMonomial(n, t1, l1);
    HalveMonomial(n, t2, l2);
    XorTop(n - 1, a / 2, t1, l1 / 2, b / 2, t2, l2 / 2);
    XorUnfold(a, b);
    XorUnfold(l1, l2);
  }

  lemma XorTopBase(a: nat, t1: bool, b: nat, t2: bool)
    requires a == Monomial(t1, 0) && b == Monomial(t2, 0)
    ensures Xor(a, b) == Monomial(t1 != t2, 0) + Xor(0, 0)
  {
    XorZero(1);
    XorSelf(1);
  }

  lemma HalveMonomial(n: nat, t: bool, l: nat)
    requires n > 0 && l < Pow2(n)
    ensures (Monomial(t, n) + l) / 2 == Monomial(t, n - 1) + l / 2
    ensures (Monomial(t, n) + l) % 2 == l % 2
  {
  }

  /** Doubling (multiplying by x) distributes over GF(2) addition. */
  lemma XorDouble(a: nat, b: nat)
    ensures Xor(2 * a, 2 * b) == 2 * Xor(a, b)
  {
    XorUnfold(2 * a, 2 * b);
  }

  lemma MulDouble(a: nat, n: nat)
    requires n > 0
    ensures a * Pow2(n) == 2 * (a * Pow2(n - 1))
  {
  }

  /** Multiplying by x^n distributes over GF(2) addition. */
  lemma {:induction false} XorShift(n: nat, a: nat, b: nat)
    ensures Xor(a * Pow2(n), b * Pow2(n)) == Xor(a, b) * Pow2(n)
  {
    if n > 0 {
      XorShift(n - 1, a, b);
      MulDouble(a, n);
      MulDouble(b, n);
      MulDouble(Xor(a, b), n);
      XorDouble(a * Pow2(n - 1), b * Pow2(n - 1));
    }
  }

  /** Carry-less product of q and g: the GF(2) product of the two polynomials. */
  function GfMul(q: nat, g: nat): (p: nat)
    decreases q
  {
    if q == 0 then 0 else Xor(2 * GfMul(q / 2, g), if q % 2 == 1 then g else 0)
  }

  /** Appending a quotient bit b below q: (2q + b) * g == x * (q * g) + b * g. */
  lemma GfMulUnfold(q: nat, b: nat, g: nat)
    requires b <= 1
    ensures GfMul(2 * q + b, g) == Xor(2 * GfMul(q, g), if b == 1 then g else 0)
  {
    if 2 * q + b == 0 {
      assert Xor(0, 0) == 0;
    } else {
      assert (2 * q + b) / 2 == q && (2 * q + b) % 2 == b;
    }
  }

  /** The product is linear in its first factor: (q1 + q2) * g == q1 * g + q2 * g. */
  lemma {:induction false} GfMulXor(q1: nat, q2: nat, g: nat)
    ensures GfMul(Xor(q1, q2), g) == Xor(GfMul(q1, g), GfMul(q2, g))
    decreases q1 + q2
  {
    if q1 + q2 == 0 {
      assert Xor(0, 0) == 0;
    } else {
      var h1, h2 := q1 / 2, q2 / 2;
      var b1, b2 := q1 % 2, q2 % 2;
      var m1, m2 := GfMul(h1, g), GfMul(h2, g);
      var g1, g2 := if b1 == 1 then g else 0, if b2 == 1 then g else 0;
      XorUnfold(q1, q2);
      GfMulUnfold(Xor(h1, h2), if b1 == b2 then 0 else 1, g);
      GfMulUnfold(h1, b1, g);
      GfMulUnfold(h2, b2, g);
      calc {
        GfMul(Xor(q1, q2), g);
        Xor(2 * GfMul(Xor(h1, h2), g), if b1 == b2 then 0 else g);
        { GfMulXor(h1, h2, g); XorDouble(m1, m2); SelectXor(b1 == 1, b2 == 1, g); }
        Xor(Xor(2 * m1, 2 * m2), Xor(g1, g2));
        { XorShuffle(2 * m1, 2 * m2, g1, g2); }
        Xor(Xor(2 * m1, g1), Xor(2 * m2, g2));
      }
    }
  }

  lemma SelectXor(c1: bool, c2: bool, g: nat)
    ensures Xor(if c1 then g else 0, if c2 then g else 0) == if c1 == c2 then 0 else g
  {
    XorZero(g);
    XorSelf(g);
  }

  /**
   * Degree bound: a non-zero multiple of a polynomial g of degree n has
   * degree at least n.
   */
  lemma {:induction false} GfMulAtLeast(n: nat, q: nat, g: nat)
    requires q > 0
    requires Pow2(n) <= g < Pow2(n + 1)
    ensures GfMul(q, g) >= Pow2(n)
    decreases q
  {
    GfMulUnfold(q / 2, q % 2, g);
    if q / 2 == 0 {
      XorZero(g);
    } else {
      GfMulAtLeast(n, q / 2, g);
      XorAtLeast(n + 1, 2 * GfMul(q / 2, g), if q % 2 == 1 then g else 0);
      Pow2Monotone(n, n + 1);
    }
  }
}
