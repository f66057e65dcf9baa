# CRC-16 lookup-table generator, modelled in Dafny

The program builds the 256-entry lookup table of a table-driven CRC. It handles
each byte value `dividend` from 0 to 255 in the same way:

- it loads the register `remainder` (the C type `crc`, an `unsigned short`) with
  the byte in its top eight bits;
- it performs eight steps of bitwise modulo-2 division, each a left shift
  followed, when the bit shifted out was set, by an XOR with `POLYNOMIAL`;
- it stores the remainder in `crcTable[dividend]`.

The standard built in is CRC-CCITT(XMODEM), with `POLYNOMIAL` 0x1021 and a
16-bit register.

The model has three modules:

- `Gf2` (`gf2.dfy`) holds polynomials over GF(2), encoded as natural numbers.
  It defines bitwise XOR (GF(2) addition), multiplication by powers of x and
  the carry-less product, together with the algebra the proofs need.
- `CrcTable` (`crc_table.dfy`) holds the program itself. It has the `crc`
  register arithmetic: the `<<` and `^` are done on values wider than the
  register (`int`, to which the 16-bit `crc` is promoted), then truncated to
  WIDTH bits on every store. It also has one
  division step, a table entry as a pure function, and the generator loop
  `BuildTable`. That loop is a method with two nested loops that fills an
  array and is proved to store `Entry(d)` at every index `d`. The width
  (`8 * sizeof(crc)`) and the polynomial are parameters, and the two
  standards of the preprocessor switch are `Standard` constants.
  `ValidWidth` says that WIDTH (`8 * sizeof(crc)`, main.c:45) is a positive
  multiple of 8, and `TableSize` is the 256 entries of `crcTable` (main.c:48).
- `CrcProperties` (`crc_properties.dfy`) holds what the table means, proved
  for every width that is a multiple of 8 and every polynomial below
  2^WIDTH:
  - entry `d` is the unique GF(2) remainder of `d * x^WIDTH` divided by
    `x^WIDTH + POLYNOMIAL`;
  - the table is linear over XOR;
  - entry 0 is 0, entry 1 is the polynomial, and entry 2^j is the
    polynomial pushed through j more steps;
  - for XMODEM, the table agrees with the published CRC-16/XMODEM values at
    the indices pinned down.

## Model

| member | source | states |
|---|---|---|
| CrcTable.TopBit | main.c:45-46 | TOPBIT is half of 2^WIDTH: the mask of the highest register bit |
| CrcTable.HasTopBit | main.c:82 | the test `remainder & TOPBIT` holds for a register value exactly when the value is at least TOPBIT |
| CrcTable.ShiftLeftAdd | main.c:72 | `<<` composes: shifting by a and then by b is shifting by a + b |
| CrcTable.Truncate | main.c:29 | storing a non-negative int into the WIDTH-bit register gives a value below 2^WIDTH; the value is unchanged when it already fits, and a value with one overflow bit loses exactly 2^WIDTH |
| CrcTable.Step | main.c:82-89 | one division step leaves a WIDTH-bit register value |
| CrcTable.Steps | main.c:77-90 | any number of steps keeps the register within WIDTH bits |
| CrcTable.Start | main.c:72 | `dividend << (WIDTH - 8)` is stored without loss: the register is d * 2^(WIDTH-8) |
| CrcTable.Entry | main.c:72-95 | every table entry lies below 2^WIDTH (0..0xFFFF for the 16-bit register) |
| CrcTable.BuildTable | main.c:63-97 | the table has 256 entries, and entry d is eight division steps on the register freshly loaded with d; only the width and the polynomial take part, never the initial remainder or the final XOR value |
| CrcProperties.Generator | main.c:31 | the full generator x^WIDTH + POLYNOMIAL has degree exactly WIDTH |
| CrcProperties.StepIsGf2 | main.c:82-89 | a step multiplies the register by x and subtracts (XORs) the whole generator exactly when the top bit was set; the bit that truncation drops is the generator's x^WIDTH term |
| CrcProperties.TopBitXor | main.c:82 | the top bit of a XOR of two registers is the XOR of their top bits, and the XOR stays within WIDTH bits |
| CrcProperties.StepXor | main.c:82-89 | one step is linear: Step(a XOR b) == Step(a) XOR Step(b) |
| CrcProperties.StepsXor | main.c:77-90 | any number of steps is linear over XOR |
| CrcProperties.EntryXor | main.c:72-90 | crcTable[a XOR b] == crcTable[a] XOR crcTable[b] for all bytes a and b |
| CrcProperties.EntryOfZero | main.c:72-89 | crcTable[0] == 0 for every width and polynomial |
| CrcProperties.StepsAdd | main.c:77-90 | n steps followed by m steps are n + m steps |
| CrcProperties.StepWithoutTopBit | main.c:86-89 | a register whose top bit is clear is just doubled |
| CrcProperties.StepOfTop | main.c:82-85 | a register holding only TOPBIT steps to POLYNOMIAL |
| CrcProperties.StepsOfMonomial | main.c:77-90 | a single set bit below the top moves up one place per step |
| CrcProperties.ReachTop | main.c:77-90 | a single bit x^n reaches TOPBIT after w - 1 - n steps |
| CrcProperties.StartOfPowerOfTwo | main.c:72 | the byte 2^j is loaded as the single bit x^(WIDTH-8+j) |
| CrcProperties.ReducedAfter | main.c:72-90 | the loaded byte 2^j has turned into POLYNOMIAL after 8 - j steps |
| CrcProperties.EntryOfPowerOfTwo | main.c:72-90 | crcTable[2^j] (j <= 7) is POLYNOMIAL pushed through j further steps |
| CrcProperties.EntryOfOne | main.c:72-90 | crcTable[1] == POLYNOMIAL |
| CrcProperties.QuotientStep | main.c:82-85 | each step appends one quotient bit, set exactly when the top bit was set, and so adds the generator to the quotient's product once |
| CrcProperties.DivisionInvariant | main.c:75-90 | after n steps on r, quotient * generator XOR register == r * x^n: the loop is long division over GF(2) |
| CrcProperties.StartShifted | main.c:72 | the loaded register times x^8 is the dividend followed by WIDTH zero bits |
| CrcProperties.ShiftedByEight | main.c:72 | d shifted by WIDTH - 8 and then by 8 is d * x^WIDTH |
| CrcProperties.IsRemainder | main.c:70-75 | the independent meaning of "modulo-2 division" of the byte followed by WIDTH zeros: rem has fewer than WIDTH bits and differs from d * x^WIDTH by a GF(2) multiple of the generator; for d == 0 the only remainder is 0 |
| CrcProperties.ZeroRemainder | main.c:75 | the only remainder of 0 is 0, because a non-zero multiple of the generator has degree WIDTH or more |
| CrcProperties.RemainderUnique | main.c:75 | the quotient and the remainder below 2^WIDTH of a GF(2) division by a degree-WIDTH generator are unique |
| CrcProperties.EntryIsRemainder | main.c:70-95 | rem is the remainder of d * x^WIDTH divided by x^WIDTH + POLYNOMIAL if and only if rem == crcTable[d] |
| CrcProperties.XmodemSteps | main.c:82-89 | for 0x1021 in 16 bits, the steps after the polynomial give 0x2042, 0x4084, 0x8108 and then, after reduction, 0x1231 |
| CrcProperties.XmodemWrap | main.c:82-85 | 0x8108 steps to (0x10210 XOR 0x1021) truncated to 16 bits, which is 0x1231 |
| CrcProperties.XmodemKnownEntries | main.c:63-97 | the XMODEM table has entries 0x0000, 0x1021, 0x2042, 0x4084, 0x8108 and 0x1231 at indices 0, 1, 2, 4, 8 and 16, and every entry is at most 0xFFFF |

## Left out

- File output is not modelled: `fopen`, the header lines, the hex formatting with a line break every eight entries, and `fclose` (main.c:57-61, 66-67, 96, 104). These are I/O.
- The console report (main.c:99-102) is I/O and is not modelled.
- The preprocessor selection of a standard and `CRC_NAME` (main.c:25-41) are compile-time choices. They are modelled as the constants `CrcCcittXmodem`, `CrcCcittKermit` and `Selected`. `BuildTable` takes the standard as a parameter.
- The KERMIT branch uses the same unreflected constants as XMODEM, so it yields the same table. The program reflects nothing, and the model does not either.
- The table is never used to checksum a message with the initial remainder and the final XOR; the program does not do this. Both values are carried in `Standard` only because the program prints them.
- `crcTable` is a process-wide global in the program. Here `BuildTable` allocates the zero-initialised array and returns it.
- C `int` overflow is not modelled. Values are unbounded naturals. With the 16-bit `crc` of both built-in standards nothing overflows. For WIDTH of 32 or more, two `int` expressions would overflow: `1 << (WIDTH - 1)` (main.c:46) and `dividend << (WIDTH - 8)` (main.c:72), where `dividend` is an `int`. At WIDTH 32, every dividend from 128 up overflows, and from WIDTH 40 the shift count itself exceeds the width of `int`. `CrcTable.TopBit` and `CrcTable.Start` compute the intended values 2^(WIDTH-1) and d * 2^(WIDTH-8) at every width. At such widths `remainder << 1` is done in the unsigned register type and wraps modulo 2^WIDTH, which is what `CrcTable.Truncate` models.
- `CrcTable.Entry` and `CrcTable.BuildTable` require WIDTH to be a positive multiple of 8, as `8 * sizeof(crc)` always is. The properties in `CrcProperties` need the polynomial to be below 2^WIDTH. `POLYNOMIAL` is a plain `int` macro (main.c:31), and its value 0x1021 fits in the 16-bit register.
- CrcProperties.XmodemKnownEntries pins down the published values only at indices 0, 1, 2, 4, 8 and 16. The remaining entries follow from `EntryXor` and `EntryIsRemainder`, but they are not spelled out one by one.
