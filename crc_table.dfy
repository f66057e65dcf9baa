/**
 * The CRC lookup-table generator of main.c.
 *
 * The register is the C type `crc` (an unsigned short for both standards the
 * program knows), of WIDTH = 8 * sizeof(crc) bits.  Values are natural
 * numbers; each assignment to a `crc` variable is an explicit truncation to
 * WIDTH bits, exactly where C converts the `int` result of `<<` and `^` back
 * to the unsigned register type.
 */
module CrcTable {
  import opened Gf2

  /**
   * One CRC standard, as the preprocessor switch at the top of main.c selects
   * it: the register width (8 * sizeof(crc)), the generator polynomial without
   * its leading coefficient, and the initial remainder and final XOR value,
   * which the program only reports and never uses.
   */
  datatype Standard = Standard(
    name: string,
    width: nat,
    polynomial: nat,
    initialRemainder: nat,
    finalXorValue: nat)

  const CrcCcittXmodem := Standard("CRC-CCITT(XMODEM)", 16, 0x1021, 0x0000, 0x0000)
  const CrcCcittKermit := Standard("CRC-CCITT(KERMIT)", 16, 0x1021, 0x0000, 0x0000)

  /** The standard the program is built with. */
  const Selected := CrcCcittXmodem

  /** One table entry per byte value. */
  const TableSize := 256

  /** WIDTH is 8 * sizeof(crc): a positive multiple of 8. */
  predicate ValidWidth(w: nat)
  {
    w >= 8 && w % 8 == 0
  }

  /** TOPBIT, the mask of the most significant register bit. */
  function TopBit(w: nat): (m: nat)
    requires w >= 1
    ensures 2 * m == Pow2(w)
  {
    Pow2(w - 1)
  }

  /** `x << k` on a non-negative value: x moves up k places. */
  function ShiftLeft(x: nat, k: nat): (r: nat)
  {
    x * Pow2(k)
  }

  /** Shifting by a and then by b is shifting by a + b. */
  lemma ShiftLeftAdd(x: nat, a: nat, b: nat)
    ensures ShiftLeft(ShiftLeft(x, a), b) == ShiftLeft(x, a + b)
  {
    Pow2Add(a, b);
    MulAssoc(x, Pow2(a), Pow2(b));
  }

  lemma MulAssoc(a: nat, b: nat, c: nat)
    ensures (a * b) * c == a * (b * c)
  {
  }

  /**
   * The test `(r & TOPBIT) != 0`: for a register value it holds exactly when
   * the value reaches TOPBIT.
   */
  predicate HasTopBit(w: nat, r: nat): (b: bool)
    requires w >= 1
    ensures r < Pow2(w) ==> (b <==> r >= TopBit(w))
  {
    TopBitDiv(w, r);
    (r / TopBit(w)) % 2 == 1
  }

  lemma TopBitDiv(w: nat, r: nat)
    requires w >= 1
    ensures r < Pow2(w) ==> ((r / TopBit(w)) % 2 == 1 <==> r >= TopBit(w))
  {
    var h := TopBit(w);
    if r < h {
      DivByZero(r, h);
    } else if r < 2 * h {
      DivByOne(r, h);
    }
  }

  lemma DivByOne(x: nat, h: nat)
    requires 1 <= h <= x < 2 * h
    ensures x / h == 1
  {
  }

  lemma DivByZero(x: nat, h: nat)
    requires x < h
    ensures x / h == 0
  {
  }

  /**
   * Storing a non-negative `int` into a w-bit unsigned register keeps its
   * value modulo 2^w.
   */
  function Truncate(w: nat, x: nat): (r: nat)
    ensures r < Pow2(w)
    ensures x < Pow2(w) ==> r == x
    ensures Pow2(w) <= x < 2 * Pow2(w) ==> r == x - Pow2(w)
  {
    ModFacts(x, Pow2(w));
    x % Pow2(w)
  }

  lemma ModFacts(x: nat, m: nat)
    requires m >= 1
    ensures x % m < m
    ensures x < m ==> x % m == x
    ensures m <= x < 2 * m ==> x % m == x - m
  {
    if m <= x < 2 * m {
      assert x == m + (x - m);
    }
  }

  /**
   * One bit of modulo-2 division: shift the register left, and if the bit
   * shifted out was set, subtract (XOR) the polynomial.  The shift and the
   * XOR are done on `int` and the result is truncated when it is stored.
   */
  function Step(w: nat, poly: nat, r: nat): (r': nat)
    requires w >= 1
    ensures r' < Pow2(w)
  {
    if HasTopBit(w, r) then
      Truncate(w, Xor(ShiftLeft(r, 1), poly))
    else
      Truncate(w, ShiftLeft(r, 1))
  }

  /** n division steps applied to the register r. */
  function Steps(w: nat, poly: nat, n: nat, r: nat): (r': nat)
    requires w >= 1
    ensures n > 0 || r < Pow2(w) ==> r' < Pow2(w)
  {
    if n == 0 then r else Step(w, poly, Steps(w, poly, n - 1, r))
  }

  /**
   * The register loaded with the dividend byte in its top eight bits and
   * zeros below.  Nothing is lost to truncation.
   */
  function Start(w: nat, d: nat): (r: nat)
    requires ValidWidth(w) && d < TableSize
    ensures r == d * Pow2(w - 8)
  {
    StartFits(w, d);
    Truncate(w, ShiftLeft(d, w - 8))
  }

  lemma StartFits(w: nat, d: nat)
    requires ValidWidth(w) && d < TableSize
    ensures d * Pow2(w - 8) < Pow2(w)
  {
    var p := Pow2(w - 8);
    Pow2Add(w - 8, 8);
    assert Pow2(8) == 256;
    assert d * p < 256 * p;
  }

  /** Table entry d: eight division steps on the loaded dividend byte. */
  function Entry(w: nat, poly: nat, d: nat): (e: nat)
    requires ValidWidth(w) && d < TableSize
    ensures e < Pow2(w)
  {
    Steps(w, poly, 8, Start(w, d))
  }

  /**
   * The generator loop of main.c: fills a fresh, zero-initialised table of
   * 256 entries, one dividend at a time, each with eight division steps on a
   * register reloaded for that dividend.  Only the width and the polynomial
   * of the standard take part.
   */
  method BuildTable(s: Standard) returns (crcTable: array<nat>)
    requires ValidWidth(s.width)
    ensures fresh(crcTable) && crcTable.Length == TableSize
    ensures forall d :: 0 <= d < TableSize ==> crcTable[d] == Entry(s.width, s.polynomial, d)
  {
    var w, poly := s.width, s.polynomial;
    // A C array of static storage duration starts out zeroed.
    crcTable := new nat[TableSize](_ => 0);
    var dividend := 0;
    while dividend < TableSize
      invariant 0 <= dividend <= TableSize
      invariant forall d :: 0 <= d < dividend ==> crcTable[d] == Entry(w, poly, d)
      invariant forall d :: dividend <= d < TableSize ==> crcTable[d] == 0
    {
      var remainder := Truncate(w, ShiftLeft(dividend, w - 8));
      var bit := 8;
      while bit > 0
        invariant 0 <= bit <= 8
        invariant remainder == Steps(w, poly, 8 - bit, Start(w, dividend))
      {
        if HasTopBit(w, remainder) {
          remainder := Truncate(w, Xor(ShiftLeft(remainder, 1), poly));
        } else {
          remainder := Truncate(w, ShiftLeft(remainder, 1));
        }
        bit := bit - 1;
      }
      crcTable[dividend] := remainder;
      dividend := dividend + 1;
    }
  }
}
