/**
 * What the table generator of main.c computes, stated and proved about the
 * model in CrcTable: each entry is the GF(2) remainder of the dividend byte
 * followed by WIDTH zero bits, divided by x^WIDTH + POLYNOMIAL; the table is
 * linear over XOR; and the reference instance (CRC-16/XMODEM) has the known
 * entries of the published table.
 */
module CrcProperties {
  import opened Gf2
  import opened CrcTable

  /** The full generator polynomial x^w + poly, with its leading coefficient. */
  function Generator(w: nat, poly: nat): (g: nat)
    requires poly < Pow2(w)
    ensures Pow2(w) <= g < Pow2(w + 1)
  {
    Pow2(w) + poly
  }

  /** Splits a w-bit register into its top bit and the w - 1 bits below it. */
  lemma TopBitSplit(w: nat, r: nat) returns (low: nat)
    requires w >= 1 && r < Pow2(w)
    ensures low < TopBit(w)
    ensures r == Monomial(HasTopBit(w, r), w - 1) + low
  {
    var h := TopBit(w);
    if r < h {
      low := r;
    } else {
      low := r - h;
      ModFacts(r, h);
      assert r == h + low;
      assert r / h == 1;
    }
  }

  /** The top-bit test reads back the top bit of a register built from it. */
  lemma TopBitOf(w: nat, t: bool, low: nat)
    requires w >= 1 && low < TopBit(w)
    ensures HasTopBit(w, Monomial(t, w - 1) + low) == t
  {
    var h := TopBit(w);
    if t {
      DivByOne(h + low, h);
    } else {
      DivByZero(low, h);
    }
  }

  /**
   * One step of the generator in GF(2) terms: the register is multiplied by x
   * and, when its top bit was set, the whole generator x^w + poly is
   * subtracted.  The bit that truncation drops is exactly the x^w term of
   * the generator.
   */
  lemma StepIsGf2(w: nat, poly: nat, r: nat)
    requires w >= 1 && poly < Pow2(w) && r < Pow2(w)
    ensures Step(w, poly, r) == Xor(2 * r, if HasTopBit(w, r) then Generator(w, poly) else 0)
  {
    var t := HasTopBit(w, r);
    var low := TopBitSplit(w, r);
    assert Pow2(1) == 2;
    assert ShiftLeft(r, 1) == 2 * r == Monomial(t, w) + 2 * low;
    XorZero(2 * r);
    if t {
      XorTop(w, 2 * r, true, 2 * low, poly, false, poly);
      XorTop(w, 2 * r, true, 2 * low, Generator(w, poly), true, poly);
      XorBound(w, 2 * low, poly);
    }
  }

  /** The top bit of a sum is the sum of the top bits. */
  lemma TopBitXor(w: nat, a: nat, b: nat)
    requires w >= 1 && a < Pow2(w) && b < Pow2(w)
    ensures Xor(a, b) < Pow2(w)
    ensures HasTopBit(w, Xor(a, b)) == (HasTopBit(w, a) != HasTopBit(w, b))
  {
    XorBound(w, a, b);
    var la := TopBitSplit(w, a);
    var lb := TopBitSplit(w, b);
    TopBitXorParts(w, a, HasTopBit(w, a), la, b, HasTopBit(w, b), lb);
  }

  lemma TopBitXorParts(w: nat, a: nat, ta: bool, la: nat, b: nat, tb: bool, lb: nat)
    requires w >= 1 && la < TopBit(w) && lb < TopBit(w)
    requires a == Monomial(ta, w - 1) + la && b == Monomial(tb, w - 1) + lb
    ensures HasTopBit(w, Xor(a, b)) == (ta != tb)
  {
    var n := w - 1;
    XorTop(n, a, ta, la, b, tb, lb);
    XorBound(n, la, lb);
    TopBitOf(w, ta != tb, Xor(la, lb));
  }

  /** A division step is linear over XOR. */
  lemma StepXor(w: nat, poly: nat, a: nat, b: nat)
    requires w >= 1 && poly < Pow2(w) && a < Pow2(w) && b < Pow2(w)
    ensures Step(w, poly, Xor(a, b)) == Xor(Step(w, poly, a), Step(w, poly, b))
  {
    var g := Generator(w, poly);
    var ga := if HasTopBit(w, a) then g else 0;
    var gb := if HasTopBit(w, b) then g else 0;
    TopBitXor(w, a, b);
    StepIsGf2(w, poly, Xor(a, b));
    StepIsGf2(w, poly, a);
    StepIsGf2(w, poly, b);
    XorDouble(a, b);
    SelectXor(HasTopBit(w, a), HasTopBit(w, b), g);
    XorShuffle(2 * a, 2 * b, ga, gb);
  }

  /** Any number of division steps is linear over XOR. */
  lemma {:induction false} StepsXor(w: nat, poly: nat, n: nat, a: nat, b: nat)
    requires w >= 1 && poly < Pow2(w) && a < Pow2(w) && b < Pow2(w)
    ensures Steps(w, poly, n, Xor(a, b)) == Xor(Steps(w, poly, n, a), Steps(w, poly, n, b))
  {
    if n > 0 {
      StepsXor(w, poly, n - 1, a, b);
      StepXor(w, poly, Steps(w, poly, n - 1, a), Steps(w, poly, n - 1, b));
    }
  }

  /** XOR-linearity of the table: crcTable[a ^ b] == crcTable[a] ^ crcTable[b]. */
  lemma EntryXor(w: nat, poly: nat, a: nat, b: nat)
    requires ValidWidth(w) && poly < Pow2(w) && a < TableSize && b < TableSize
    ensures Xor(a, b) < TableSize
    ensures Entry(w, poly, Xor(a, b)) == Xor(Entry(w, poly, a), Entry(w, poly, b))
  {
    assert Pow2(8) == TableSize;
    XorBound(8, a, b);
    XorShift(w - 8, a, b);
    StepsXor(w, poly, 8, Start(w, a), Start(w, b));
  }

  /** Zero stays zero through every division step. */
  lemma {:induction false} StepsOfZero(w: nat, poly: nat, n: nat)
    requires w >= 1
    ensures Steps(w, poly, n, 0) == 0
  {
    if n > 0 {
      StepsOfZero(w, poly, n - 1);
      assert !HasTopBit(w, 0);
    }
  }

  /** crcTable[0] == 0 for every width and polynomial. */
  lemma EntryOfZero(w: nat, poly: nat)
    requires ValidWidth(w)
    ensures Entry(w, poly, 0) == 0
  {
    StepsOfZero(w, poly, 8);
  }

  /** n steps followed by m steps are n + m steps. */
  lemma {:induction false} StepsAdd(w: nat, poly: nat, n: nat, m: nat, r: nat)
    requires w >= 1
    ensures Steps(w, poly, n + m, r) == Steps(w, poly, m, Steps(w, poly, n, r))
  {
    if m > 0 {
      var k := m - 1;
      StepsAdd(w, poly, n, k, r);
      assert Steps(w, poly, n + k + 1, r) == Step(w, poly, Steps(w, poly, n + k, r));
      assert Steps(w, poly, k + 1, Steps(w, poly, n, r)) == Step(w, poly, Steps(w, poly, k, Steps(w, poly, n, r)));
    }
  }

  /** A register whose top bit is clear is only shifted left. */
  lemma StepWithoutTopBit(w: nat, poly: nat, r: nat)
    requires w >= 1 && r < TopBit(w)
    ensures Step(w, poly, r) == 2 * r
  {
    TopBitOf(w, false, r);
    assert Pow2(1) == 2;
  }

  /** A register holding only the top bit steps to the polynomial. */
  lemma StepOfTop(w: nat, poly: nat)
    requires w >= 1 && poly < Pow2(w)
    ensures Step(w, poly, TopBit(w)) == poly
  {
    var top := Pow2(w - 1);
    assert HasTopBit(w, top) by {
      TopBitOf(w, true, 0);
    }
    StepIsGf2(w, poly, top);
    XorTop(w, 2 * top, true, 0, Generator(w, poly), true, poly);
    XorZero(poly);
  }

  /** Below the top bit, a single set bit only moves up, one place per step. */
  lemma {:induction false} StepsOfMonomial(w: nat, poly: nat, n: nat, k: nat)
    requires w >= 1 && n + k < w
    ensures Steps(w, poly, k, Pow2(n)) == Pow2(n + k)
  {
    if k > 0 {
      StepsOfMonomial(w, poly, n, k - 1);
      var i := n + k - 1;
      assert Pow2(i + 1) == 2 * Pow2(i);
      Pow2Monotone(i + 1, w - 1);
      StepWithoutTopBit(w, poly, Pow2(i));
      assert Steps(w, poly, k, Pow2(n)) == Step(w, poly, Pow2(i));
    }
  }

  /**
   * crcTable[2^j] is the polynomial pushed through j further steps: the
   * dividend bit reaches the top after 7 - j shifts and turns into the
   * polynomial on the next.
   */
  lemma EntryOfPowerOfTwo(w: nat, poly: nat, j: nat)
    requires ValidWidth(w) && poly < Pow2(w) && j <= 7
    ensures Pow2(j) < TableSize
    ensures Entry(w, poly, Pow2(j)) == Steps(w, poly, j, poly)
  {
    Pow2Monotone(j + 1, 8);
    assert Pow2(8) == TableSize;
    var start := Start(w, Pow2(j));
    ReducedAfter(w, poly, j);
    StepsAdd(w, poly, 8 - j, j, start);
  }

  /** The loaded byte 2^j turns into the polynomial after 8 - j steps. */
  lemma ReducedAfter(w: nat, poly: nat, j: nat)
    requires ValidWidth(w) && poly < Pow2(w) && j <= 7 && Pow2(j) < TableSize
    ensures Steps(w, poly, 8 - j, Start(w, Pow2(j))) == poly
  {
    var start := Start(w, Pow2(j));
    StartOfPowerOfTwo(w, j);
    ReachTop(w, poly, w - 8 + j);
    StepsAdd(w, poly, 7 - j, 1, start);
    StepOfTop(w, poly);
  }

  /** The byte 2^j is loaded as the single bit x^(w-8+j). */
  lemma StartOfPowerOfTwo(w: nat, j: nat)
    requires ValidWidth(w) && j <= 7 && Pow2(j) < TableSize
    ensures Start(w, Pow2(j)) == Pow2(w - 8 + j)
  {
    Pow2Add(j, w - 8);
  }

  /** A single bit x^n reaches the top of the register after w - 1 - n steps. */
  lemma ReachTop(w: nat, poly: nat, n: nat)
    requires n < w
    ensures Steps(w, poly, w - 1 - n, Pow2(n)) == TopBit(w)
  {
    StepsOfMonomial(w, poly, n, w - 1 - n);
    assert n + (w - 1 - n) == w - 1;
  }

  /** crcTable[1] is the polynomial itself, for every width and polynomial. */
  lemma EntryOfOne(w: nat, poly: nat)
    requires ValidWidth(w) && poly < Pow2(w)
    ensures Entry(w, poly, 1) == poly
  {
    EntryOfPowerOfTwo(w, poly, 0);
  }

  /**
   * The quotient bits that n division steps on r produce: one bit per step,
   * set when the generator was subtracted.
   */
  function Quotient(w: nat, poly: nat, n: nat, r: nat): (q: nat)
    requires w >= 1
  {
    if n == 0 then 0
    else 2 * Quotient(w, poly, n - 1, r) + (if HasTopBit(w, Steps(w, poly, n - 1, r)) then 1 else 0)
  }

  /**
   * The division invariant: after n steps on r, quotient * generator plus the
   * register is r * x^n.
   */
  lemma {:induction false} DivisionInvariant(w: nat, poly: nat, n: nat, r: nat)
    requires w >= 1 && poly < Pow2(w) && r < Pow2(w)
    ensures Xor(GfMul(Quotient(w, poly, n, r), Generator(w, poly)), Steps(w, poly, n, r)) == r * Pow2(n)
  {
    var g := Generator(w, poly);
    if n == 0 {
      XorZero(r);
    } else {
      DivisionInvariant(w, poly, n - 1, r);
      var s := Steps(w, poly, n - 1, r);
      var q := Quotient(w, poly, n - 1, r);
      var t := HasTopBit(w, s);
      var m := GfMul(q, g);
      var c := if t then g else 0;
      QuotientStep(w, poly, n, r, g);
      assert Steps(w, poly, n, r) == Xor(2 * s, c) by {
        StepIsGf2(w, poly, s);
      }
      CancelSelected(m, s, c);
      MulDouble(r, n);
    }
  }

  /** Each step appends one quotient bit, adding the generator to the product when set. */
  lemma QuotientStep(w: nat, poly: nat, n: nat, r: nat, g: nat)
    requires w >= 1 && n > 0
    ensures GfMul(Quotient(w, poly, n, r), g)
         == Xor(2 * GfMul(Quotient(w, poly, n - 1, r), g), if HasTopBit(w, Steps(w, poly, n - 1, r)) then g else 0)
  {
    var b := if HasTopBit(w, Steps(w, poly, n - 1, r)) then 1 else 0;
    assert Quotient(w, poly, n, r) == 2 * Quotient(w, poly, n - 1, r) + b;
    GfMulUnfold(Quotient(w, poly, n - 1, r), b, g);
  }

  /** (x * m + c) + (x * s + c) == x * (m + s) over GF(2). */
  lemma CancelSelected(m: nat, s: nat, c: nat)
    ensures Xor(Xor(2 * m, c), Xor(2 * s, c)) == 2 * Xor(m, s)
  {
    calc {
      Xor(Xor(2 * m, c), Xor(2 * s, c));
      { XorShuffle(2 * m, c, 2 * s, c); }
      Xor(Xor(2 * m, 2 * s), Xor(c, c));
      { XorSelf(c); XorZero(Xor(2 * m, 2 * s)); XorDouble(m, s); }
      2 * Xor(m, s);
    }
  }

  /**
   * rem is the remainder of d * x^w (the byte followed by w zero bits) divided
   * by the generator x^w + poly over GF(2): it has fewer than w bits and
   * differs from d * x^w by a multiple of the generator.
   */
  ghost predicate IsRemainder(w: nat, poly: nat, d: nat, rem: nat): (b: bool)
    requires poly < Pow2(w)
    ensures d == 0 ==> (b <==> rem == 0)
  {
    ZeroRemainder(w, Generator(w, poly), rem, d * Pow2(w));
    rem < Pow2(w) && DiffersByMultiple(Generator(w, poly), rem, d * Pow2(w))
  }

  /** a + q * g == b for some polynomial q. */
  ghost predicate DiffersByMultiple(g: nat, a: nat, b: nat)
  {
    exists q: nat :: Xor(GfMul(q, g), a) == b
  }

  /** The only remainder of 0 is 0: a non-zero multiple of g has degree w or more. */
  lemma ZeroRemainder(w: nat, g: nat, rem: nat, z: nat)
    requires Pow2(w) <= g < Pow2(w + 1)
    ensures z == 0 ==> ((rem < Pow2(w) && DiffersByMultiple(g, rem, z)) <==> rem == 0)
  {
    if z == 0 {
      if rem == 0 {
        assert Xor(GfMul(0, g), 0) == 0;
      }
      if rem < Pow2(w) && DiffersByMultiple(g, rem, z) {
        var q: nat :| Xor(GfMul(q, g), rem) == 0;
        XorZeroIffEqual(GfMul(q, g), rem);
        if q > 0 {
          GfMulAtLeast(w, q, g);
        }
      }
    }
  }

  /** Eight more shifts take the loaded byte d * x^(w-8) to d * x^w. */
  lemma StartShifted(w: nat, d: nat)
    requires ValidWidth(w) && d < TableSize
    ensures Start(w, d) * Pow2(8) == d * Pow2(w)
  {
    var s := Start(w, d);
    assert s == ShiftLeft(d, w - 8);
    ShiftedByEight(d, w - 8, w);
  }

  lemma ShiftedByEight(d: nat, k: nat, w: nat)
    requires w == k + 8
    ensures ShiftLeft(d, k) * Pow2(8) == d * Pow2(w)
  {
    ShiftLeftAdd(d, k, 8);
  }

  /** Division with remainder over GF(2) is unique. */
  lemma RemainderUnique(w: nat, g: nat, q1: nat, r1: nat, q2: nat, r2: nat)
    requires Pow2(w) <= g < Pow2(w + 1)
    requires r1 < Pow2(w) && r2 < Pow2(w)
    requires Xor(GfMul(q1, g), r1) == Xor(GfMul(q2, g), r2)
    ensures q1 == q2 && r1 == r2
  {
    var m1, m2 := GfMul(q1, g), GfMul(q2, g);
    XorSelf(Xor(m1, r1));
    XorShuffle(m1, r1, m2, r2);
    XorZeroIffEqual(Xor(m1, m2), Xor(r1, r2));
    XorBound(w, r1, r2);
    GfMulXor(q1, q2, g);
    if Xor(q1, q2) > 0 {
      GfMulAtLeast(w, Xor(q1, q2), g);
      assert false;
    }
    XorZeroIffEqual(q1, q2);
    XorSelf(m1);
    XorZeroIffEqual(r1, r2);
  }

  /**
   * Table entry d is the remainder of the modulo-2 division of d * x^w by
   * x^w + poly, and it is the only such remainder.
   */
  lemma EntryIsRemainder(w: nat, poly: nat, d: nat, rem: nat)
    requires ValidWidth(w) && poly < Pow2(w) && d < TableSize
    ensures IsRemainder(w, poly, d, rem) <==> rem == Entry(w, poly, d)
  {
    var g := Generator(w, poly);
    var start := Start(w, d);
    var q := Quotient(w, poly, 8, start);
    var e := Entry(w, poly, d);
    DivisionInvariant(w, poly, 8, start);
    StartShifted(w, d);
    assert Xor(GfMul(q, g), e) == d * Pow2(w);
    if IsRemainder(w, poly, d, rem) {
      var q' :| Xor(GfMul(q', g), rem) == d * Pow2(w);
      RemainderUnique(w, g, q', rem, q, e);
    }
  }

  lemma Pow2Literals()
    ensures Pow2(4) == 0x10 && Pow2(5) == 0x20 && Pow2(9) == 0x200 && Pow2(12) == 0x1000
    ensures Pow2(15) == 0x8000 && Pow2(16) == 0x10000
  {
    assert Pow2(2) == 4;
    Pow2Add(2, 2);
    Pow2Add(4, 4);
    Pow2Add(8, 4);
    Pow2Add(8, 8);
    assert Pow2(5) == 2 * Pow2(4);
    assert Pow2(9) == 2 * Pow2(8);
    assert Pow2(16) == 2 * Pow2(15);
  }

  /** 0x10210 ^ 0x11021 == 0x1231, one differing bit at a time. */
  lemma XmodemReduction()
    ensures Xor(0x10210, 0x11021) == 0x1231
  {
    Pow2Literals();
    XorTop(16, 0x10210, true, 0x0210, 0x11021, true, 0x1021);
    XorTop(12, 0x0210, false, 0x0210, 0x1021, true, 0x021);
    XmodemReductionLow();
  }

  lemma XmodemReductionLow()
    ensures Xor(0x210, 0x021) == 0x231
  {
    Pow2Literals();
    XorTop(9, 0x210, true, 0x010, 0x021, false, 0x021);
    XorTop(5, 0x010, false, 0x010, 0x021, true, 0x01);
    assert Xor(0x10, 0x01) == 0x11 by {
      XorTop(4, 0x10, true, 0, 0x01, false, 0x01);
      XorZero(1);
    }
  }

  /** The XMODEM polynomial pushed through one to four further division steps. */
  lemma XmodemSteps()
    ensures Steps(16, 0x1021, 1, 0x1021) == 0x2042
    ensures Steps(16, 0x1021, 2, 0x1021) == 0x4084
    ensures Steps(16, 0x1021, 3, 0x1021) == 0x8108
    ensures Steps(16, 0x1021, 4, 0x1021) == 0x1231
  {
    var w, poly := 16, 0x1021;
    Pow2Literals();
    assert Steps(w, poly, 1, poly) == 0x2042 by {
      StepWithoutTopBit(w, poly, 0x1021);
    }
    assert Steps(w, poly, 2, poly) == 0x4084 by {
      StepWithoutTopBit(w, poly, 0x2042);
    }
    assert Steps(w, poly, 3, poly) == 0x8108 by {
      StepWithoutTopBit(w, poly, 0x4084);
    }
    XmodemWrap();
  }

  /** The step on which the top bit is set and the polynomial is subtracted. */
  lemma XmodemWrap()
    ensures Step(16, 0x1021, 0x8108) == 0x1231
  {
    Pow2Literals();
    TopBitOf(16, true, 0x0108);
    StepIsGf2(16, 0x1021, 0x8108);
    XmodemReduction();
  }

  /** The reference instance: entries of the published CRC-16/XMODEM table. */
  lemma XmodemKnownEntries()
    ensures Entry(Selected.width, Selected.polynomial, 0) == 0x0000
    ensures Entry(Selected.width, Selected.polynomial, 1) == 0x1021
    ensures Entry(Selected.width, Selected.polynomial, 2) == 0x2042
    ensures Entry(Selected.width, Selected.polynomial, 4) == 0x4084
    ensures Entry(Selected.width, Selected.polynomial, 8) == 0x8108
    ensures Entry(Selected.width, Selected.polynomial, 16) == 0x1231
    ensures forall d :: 0 <= d < TableSize ==> Entry(Selected.width, Selected.polynomial, d) <= 0xFFFF
  {
    var w, poly := 16, 0x1021;
    Pow2Literals();
    EntryOfZero(w, poly);
    EntryOfOne(w, poly);
    XmodemSteps();
    EntryOfPowerOfTwo(w, poly, 1);
    EntryOfPowerOfTwo(w, poly, 2);
    EntryOfPowerOfTwo(w, poly, 3);
    EntryOfPowerOfTwo(w, poly, 4);
  }
}
