# CRC engine and rational numbers of the login server's Boost headers

The login server ships the Boost headers it builds against. Two of them hold self-contained
algorithms that are hard to get right, and this project models them and proves what they promise:

- `include/boost/crc.hpp`: cyclic redundancy codes, computed bit by bit, byte by byte from generated
  tables, and byte by byte on reflected registers;
- `include/boost/rational.hpp`, with the gcd of `include/boost/integer/common_factor_rt.hpp`: exact
  rational numbers kept in lowest terms by algorithms that cancel before they multiply, and compared
  by continued fractions.

## How the model is laid out

| files | content |
|---|---|
| `Wrappers`, `Registers`, `Gf2`, `Constants` | optional results, bits, machine words as bit sequences, polynomials over GF(2) with long division |
| `Reflection`, `Divider`, `Tables`, `Drivers`, `Computers` | the CRC routines and both computer classes |
| `StrayBits`, `Agreement`, `ErrorDetection`, `Rfc1952`, `Crc32Residue` | what the CRC routines achieve |
| `NumberTheory`, `CommonFactor`, `IntegerOps`, `Ordering` | gcd, Bezout, truncating division, continued fractions |
| `Fractions`, `FractionLaws`, `Rationals`, `Evaluators`, `RealNumbers`, `Runs` | canonical fractions, the class, gcd and lcm of rationals, the real numbers they stand for, whole runs |

A register is a sequence of bits whose index `i` is the coefficient of x^i and whose length is the
width W of the C++ type; the order n of the polynomial may be smaller. The dividers never mask the
bits at n and above, so the model keeps them ("stray bits"). All results hold for every n and W, not
for chosen word sizes. Messages are sequences of bytes. Loops are loops, the computers and the
rational are classes with the fields of the source, and an exception is a `false` or `null` result
that leaves the object as it was. Where a result says that values stay in a range, each operation of
the method, each gcd it receives included, is wrapped in `IntegerOps.Fit`, whose precondition is that
its argument is in that range. What the gcd routine computes on the way is outside that claim.
An operation that the language leaves undefined has the result `None` of `Wrappers.Option`.

## Findings

- A reflected table in a register wider than the polynomial keeps stray bits in its entries and later
  shifts them into the checksum. For orders of at least a byte the two computers agree on every
  message if and only if the divisor is written with exactly its leading term above the low n bits
  and the initial remainder has no bits there (both trivially true when W = n, as for every predefined
  reflected type). `Rfc1952.TwelveBitsDisagree` is an instance that fails: 0x80F in 16 bits, and the
  message 0x80 0x01. The documentation makes no such exception, and calls those bits ignorable
  (`include/boost/crc.hpp:1575-1577`).
- The documentation of the sub-byte reflectors says that higher bits are kept
  (`include/boost/crc.hpp:864-877`); the code clears them. `Computers.SubByteReflectorKeepsDocumentation`
  proves that it meets the documentation exactly when there are no such bits, and
  `Computers.SubByteReflectorClears` shows the byte 0x10 at order 4, for which it does not.
- `augmented_crc` is documented for every order (`include/boost/crc.hpp:2242`), but it always uses the
  byte table, whose index is shifted down by the order less eight. The model gives that shift no result
  when the count is negative: `ErrorDetection.AugmentedCrc` has a result, the documented one, if and
  only if the order is at least a byte or the message is empty.
- Bursts no longer than the order are all caught if and only if the divisor has a constant term.
  0x8408, the divisor of the type its author calls mistaken, has none. The same condition decides
  whether the residue of a message with its checksum appended rules out every wrong checksum.

## Model

| member | source | states |
|---|---|---|
| Reflection.ReflectUnsigned | include/boost/crc.hpp:383-397 | the two-mask loop sends bit j to bit n-1-j below n, keeps the other bits, and ends for every n |
| Reflection.MakeByteReflectionTable | include/boost/crc.hpp:408-418 | the loop that ends when its byte counter wraps around fills all 256 slots, each with the reflection of its index |
| Reflection.ReflectByte | include/boost/crc.hpp:435-441 | table lookup reverses a byte |
| Reflection.ReflectSubByte | include/boost/crc.hpp:455-456 | the low n bits are reversed and the others cleared |
| Reflection.ReflectLowInvolution | include/boost/crc.hpp:362-397 | reflecting twice restores the value for every n |
| Gf2.DivisionUnique | include/boost/crc.hpp:501-510 | quotient and remainder of a division by a monic polynomial are determined by the dividend |
| Divider.CrcModuloWordUpdate | include/boost/crc.hpp:548-576 | the in-place loop feeds exactly the low bits of the word, in the chosen reading order, to the division, on all W bits |
| Divider.AugmentedCrcModuloWordUpdate | include/boost/crc.hpp:667-692 | the same for the augmented form |
| Divider.StrayBitsIgnored | include/boost/crc.hpp:568-572 | the low n bits never depend on the unmasked bits of register or divisor |
| Divider.DivideXor | include/boost/crc.hpp:548-576 | the update is linear over XOR in remainder and input, for every length |
| Divider.DivideConcat | include/boost/crc.hpp:512-546 | feeding two streams one after the other is feeding their concatenation |
| Divider.DivideIsRemainder | include/boost/crc.hpp:501-576 | the low n bits after k input bits are the remainder of r(x) x^k + b(x) x^n modulo x^n + d(x), and nothing else is |
| Divider.AugDivideIsRemainder | include/boost/crc.hpp:622-692 | the augmented form leaves the remainder of r(x) x^k + b(x) |
| Divider.ReadOrderAt | include/boost/crc.hpp:548-576 | which bit of a word is read when, in either order |
| Divider.WholeRegister | include/boost/crc.hpp:548-576 | all W bits of the register, the unmasked ones included, are r x^k + b x^n plus the multiple of the stored divisor by the quotient of that same division, cut at x^W |
| Divider.AugWholeRegister | include/boost/crc.hpp:667-692 | the same for the augmented form, with r x^k + b |
| Divider.AugmentedIsUnaugmented | include/boost/crc.hpp:2252-2258 | an augmented run ended by n zero bits equals an unaugmented run from zero over the initial remainder's bits and the message, which relates the two kinds of initial remainder that the documentation leaves unconverted |
| Tables.MakePartialXorProductsTable | include/boost/crc.hpp:966-985 | slot v of the generated table holds the division of v from zero, reflected on both sides if asked, and no slot is missed or overwritten |
| Tables.Absorb | include/boost/crc.hpp:1141-1159 | dividing up to n bits is shifting the register and XORing one table entry for the leaving bits XORed with the entering ones |
| Tables.AugAbsorb | include/boost/crc.hpp:1110-1128 | the augmented counterpart, indexed by the leaving bits alone |
| Tables.TableFromAugmentedDivider | include/boost/crc.hpp:963-985 | each entry is what the augmented divider makes of the index in the top bits over that many zeros, which settles the file's open question |
| Drivers.StreamBitsAt | include/boost/crc.hpp:1826-1874 | which bit of which byte of a message is read when, in either order |
| Drivers.DirectByteUpdate | include/boost/crc.hpp:1141-1159 | the byte-wise table run leaves the significant bits of the bit-wise division of the whole message |
| Drivers.DirectByteAugmentedUpdate | include/boost/crc.hpp:1110-1128 | the same for augmented messages, for every order; there is no result exactly when a non-empty message meets an order below a byte, where the shift that finds the table index has a negative count |
| Drivers.ReflectedByteUpdate | include/boost/crc.hpp:1234-1253 | the reflected table run, on all W bits |
| Drivers.ReflectedRoundMeaning | include/boost/crc.hpp:1239-1250 | one reflected round on the mirror image of a remainder divides it by the byte read low bit first; its stray bits are exactly the table entry's |
| Drivers.ReflectedRoundStrays | include/boost/crc.hpp:1239-1250 | from any register, stray bits only move down a byte; all else is the round without them |
| Drivers.DirectSubByteUpdate | include/boost/crc.hpp:1349-1362 | below a byte of order the bytes are divided bit by bit |
| Drivers.ReflectedSubByteUpdate | include/boost/crc.hpp:1436-1451 | the same on a reflected remainder, reflected back, with the upper bits cleared |
| StrayBits.ReflectedRunMeaning | include/boost/crc.hpp:1234-1253 | reflection commutes with division for every message when the divisor carries its leading term |
| StrayBits.StraysSurface | include/boost/crc.hpp:1239-1250 | a stray bit above correct significant bits is always brought into the remainder by some message |
| Computers.SubByteReflectorKeepsDocumentation | include/boost/crc.hpp:864-877 | the reflector of orders up to a byte returns the documented value if and only if the bits above the order are zero |
| Computers.SubByteReflectorClears | include/boost/crc.hpp:864-877 | at order 4 the byte 0x10 becomes 0, where the documentation promises 0x10 |
| Computers.OutputBits | include/boost/crc.hpp:1883-1885 | which bit of a remainder meets which bit of the mask in the model's output, for every parameter set |
| Computers.CrcBasic.constructor | include/boost/crc.hpp:1554-1568 | the register starts as the initial remainder |
| Computers.CrcBasic.GetInterimRemainder | include/boost/crc.hpp:1672-1680 | the significant bits in place, the others zero |
| Computers.CrcBasic.ResetTo | include/boost/crc.hpp:1695-1704 | the register becomes the given value |
| Computers.CrcBasic.Reset | include/boost/crc.hpp:1718-1726 | the register becomes the initial remainder again |
| Computers.CrcBasic.ProcessBit | include/boost/crc.hpp:1735-1744 | one division step |
| Computers.CrcBasic.ProcessBits | include/boost/crc.hpp:1761-1778 | the lowest bits of the byte are divided, highest of them first, whatever the reflection setting |
| Computers.CrcBasic.ProcessByte | include/boost/crc.hpp:1791-1800 | a byte is divided in the order the reflection setting asks for |
| Computers.CrcBasic.ProcessBytes | include/boost/crc.hpp:1826-1874 | a message is divided byte by byte on all W bits |
| Computers.CrcBasic.Checksum | include/boost/crc.hpp:1888-1897 | bit i is bit i of the register, counted from the other end of the low n bits if output is reflected, against bit i of the mask; zeros from n on |
| Computers.CrcOptimal.constructor | include/boost/crc.hpp:1922-1934 | the register starts as the possibly reflected initial remainder |
| Computers.CrcOptimal.GetInterimRemainder | include/boost/crc.hpp:1999-2012 | the significant bits, counted from the other end if input is reflected, the others zero |
| Computers.CrcOptimal.ResetTo | include/boost/crc.hpp:2028-2039 | the register becomes the possibly reflected value |
| Computers.CrcOptimal.ProcessBytes | include/boost/crc.hpp:2087-2100 | without strays the register goes on standing for the bit-wise remainder and stays free of strays; with a reflected table it follows that table's run in any case |
| Computers.CrcOptimal.ProcessByte | include/boost/crc.hpp:2047-2058 | the same for one byte |
| Computers.CrcOptimal.Checksum | include/boost/crc.hpp:2102-2114 | bit i is bit i of the register, counted from the other end exactly when the two reflection settings differ, against bit i of the mask; this is the model's output of the remainder stood for |
| Agreement.Crc | include/boost/crc.hpp:2216-2230 | the one-call function returns the table-driven checksum |
| Agreement.BasicCrc | include/boost/crc.hpp:1826-1897 | the bit-wise computer returns the checksum of the parameterised reference model |
| Agreement.OptimalAgreesWithBasic | include/boost/crc.hpp:1087-1453 | both computers give the same checksum for every message if and only if strays are harmless: always without input reflection or below a byte of order, otherwise exactly when divisor and initial remainder meet the stated condition |
| Agreement.BasicResumes | include/boost/crc.hpp:1659-1704 | the bit-wise computer started from the interim remainder continues the run at every cut of every message, whatever stray bits the register held |
| Agreement.ResumptionIsSeamless | include/boost/crc.hpp:1999-2039 | a table-driven computer started from the interim remainder continues the run at every cut of every message, under exactly the condition of agreement |
| Agreement.OptimalDividesPolynomials | include/boost/crc.hpp:2087-2100 | what the table-driven computer reports is the remainder of polynomial division of the message, and nothing else is |
| Agreement.ModelChecksumIsRemainder | include/boost/crc.hpp:1826-1897 | for every parameter set and message, bit i of the checksum is bit i of the remainder of r x^k + b x^n, where r is the initial remainder and b the message, counted from the other end if output is reflected, against bit i of the mask |
| Agreement.OptimalChecksumIsRemainder | include/boost/crc.hpp:2087-2230 | the same for the table-driven computer and the one-call function where strays are harmless |
| ErrorDetection.AugmentedCrc | include/boost/crc.hpp:2281-2294 | the function returns the augmented division of the message, zeros above n, for every order and message except a non-empty message at an order below a byte, for which it has no result |
| ErrorDetection.Codeword | include/boost/crc.hpp:2267-2279 | for an order of whole bytes, message and check bytes divide to zero if and only if the check bytes are the big-endian checksum; zero check bytes yield the checksum; for every initial remainder |
| ErrorDetection.AugmentedRunsCompose | include/boost/crc.hpp:2252-2254 | a block read in two runs, the second started from the result of the first, is the block read in one |
| ErrorDetection.ZeroBytesGiveCrc | include/boost/crc.hpp:2267-2271 | with zero check bytes and zero start the result is what `crc` returns for the message |
| ErrorDetection.BurstDetection | include/boost/crc.hpp:548-576 | all bursts no longer than the order are detected, from any start and at any register width, if and only if the divisor has a constant term |
| ErrorDetection.BurstsChangeChecksum | include/boost/crc.hpp:2087-2114 | where strays are harmless and the divisor has a constant term, messages whose bits differ in reading order by a burst no longer than the order get different checksums from the table-driven computer |
| ErrorDetection.CheckStream | include/boost/crc.hpp:1883-1885 | the check bytes of a checksum are read back as its bits, from the low end if output is reflected and from the high end otherwise, for each of the four reflection settings |
| ErrorDetection.ModelResidue | include/boost/crc.hpp:2216-2230 | for an order of whole bytes, a message with its check bytes appended leaves one residue that depends on the parameters alone |
| ErrorDetection.ResidueIsExact | include/boost/crc.hpp:2216-2230 | no other check bytes leave the residue, if and only if the divisor has a constant term |
| ErrorDetection.ResidueDecides | include/boost/crc.hpp:2216-2230 | the table-driven checksum of message and check bytes is the residue if and only if those are the check bytes of the message |
| Rfc1952.RfcTableIsReflectedTable | include/boost/crc.hpp:966-985 | eight right-shifting steps by the reflected divisor make the reflected table entry |
| Rfc1952.RightShiftingChecksum | include/boost/crc.hpp:1234-1253 | at every width of at least a byte the reflected computer with complemented start and output equals the right-shifting algorithm, for every message |
| Rfc1952.Crc32IsComplemented | include/boost/crc.hpp:107-109 | `crc_32_type` with its constants as written, start and mask 0xFFFFFFFF, is the complemented reflected set of 0x04C11DB7 |
| Rfc1952.Crc32IsRfc1952 | include/boost/crc.hpp:108-109 | `crc_32_type`, and the bit-wise computer with its parameters, equal the 0xEDB88320 algorithm of section 8 of RFC 1952 for every message |
| Crc32Residue.Crc32Residue | include/boost/crc.hpp:107-109 | the `crc_32_type` checksum of a message and four more bytes is 0x2144DF1C if and only if those bytes are the checksum of the message in little-endian order |
| Rfc1952.PredefinedDivisors | include/boost/crc.hpp:92-109 | 0x8005, 0x1021 and 0x04C11DB7 detect all short bursts and 0x8408 does not |
| Rfc1952.OmittedTermDisagrees | include/boost/crc.hpp:1234-1253 | reflected input, zero start, the leading term omitted as usual and one to eight spare register bits: the two computers disagree about 0x80 followed by the low byte of the reflected divisor |
| Rfc1952.TwelveBitsDisagree | include/boost/crc.hpp:1087-1453 | for 0x80F at order 12 in a 16-bit register with reflection, the message 0x80 0x01 gets different checksums |
| NumberTheory.EuclidsLemma | include/boost/rational.hpp:522-535 | a divisor of a product that is coprime to one factor divides the other |
| CommonFactor.MakeOdd | include/boost/integer/common_factor_rt.hpp:129-142 | the value is split into an odd part and a power of two |
| CommonFactor.MixedBinaryGcd | include/boost/integer/common_factor_rt.hpp:331-360 | the mixed binary Euclid loop ends and returns the greatest common divisor of any two naturals, zeros included |
| CommonFactor.IntegerGcd | include/boost/integer/common_factor_rt.hpp:444-452 | the gcd of two integers of any sign, never negative |
| NumberTheory.GcdIsGreatestCommonDivisor | include/boost/integer/common_factor_rt.hpp:444-452 | that gcd is a common divisor which every common divisor divides, and zero only for two zeros |
| CommonFactor.LcmProperties | include/boost/integer/common_factor_rt.hpp:430-458 | the lcm is a common multiple, divides every other one, and times the gcd gives the absolute product |
| Fractions.CanonUnique | include/boost/rational.hpp:422-427 | whatever is in lowest terms and has the value n/d is the one canonical pair |
| Fractions.LowestTermsUnique | include/boost/rational.hpp:422-427 | canonical pairs have the same value if and only if they are the same pair |
| Fractions.ReducedSum | include/boost/rational.hpp:522-546 | dividing the cross sum by gcd(a d1 + c b1, g) alone already reaches lowest terms, and the value is a/b + c/d |
| Fractions.ReducedProduct | include/boost/rational.hpp:577-581 | cancelling crosswise before multiplying gives the product in lowest terms |
| RealNumbers.CanonIsExact | include/boost/rational.hpp:884-917 | reducing to lowest terms keeps the real number n/d |
| RealNumbers.EqualityIsExact | include/boost/rational.hpp:868-873 | stored pairs are the same pair if and only if they stand for the same real number |
| RealNumbers.SumIsExact | include/boost/rational.hpp:517-549 | the canonical sum stands for the sum of the real numbers |
| RealNumbers.DifferenceIsExact | include/boost/rational.hpp:552-568 | the canonical difference stands for their difference |
| RealNumbers.ProductIsExact | include/boost/rational.hpp:571-583 | the canonical product stands for their product |
| RealNumbers.RatioIsExact | include/boost/rational.hpp:586-612 | the canonical ratio stands for their quotient, the divisor not being zero |
| RealNumbers.NegationIsExact | include/boost/rational.hpp:508-513 | the negated pair stands for the negated number |
| RealNumbers.WholeIsExact | include/boost/rational.hpp:183-186 | an integer over one stands for that integer |
| RealNumbers.OrderIsExact | include/boost/rational.hpp:785-866 | the order of pairs is the order of the real numbers |
| RealNumbers.MultipleIsExact | include/boost/rational.hpp:1012-1040 | being a multiple, in the sense of the gcd and lcm of rationals, is being an integer multiple of the real number |
| Rationals.Rational.constructor | include/boost/rational.hpp:183-186 | an integer is stored over one |
| Rationals.Rational.Normalize | include/boost/rational.hpp:884-917 | fails exactly on a zero denominator, and otherwise stores the canonical fraction |
| Rationals.Rational.Make | include/boost/rational.hpp:188-193 | the two-argument construction, null exactly for a zero denominator |
| Rationals.Rational.Assign | include/boost/rational.hpp:216-223 | stores the canonical fraction or leaves the object alone |
| Rationals.Rational.AddAssign | include/boost/rational.hpp:517-549 | the canonical sum of the old values, also when the operand is the object |
| Rationals.Rational.SubtractAssign | include/boost/rational.hpp:552-568 | the canonical difference, also when the operand is the object |
| Rationals.Rational.MultiplyAssign | include/boost/rational.hpp:571-583 | the canonical product, also when the operand is the object; both gcds and every other value the method computes fit a symmetric range that holds operands and result |
| Rationals.Rational.DivideAssign | include/boost/rational.hpp:586-612 | fails exactly on a zero operand, otherwise the canonical ratio; the same range for both gcds and every other value the method computes |
| Rationals.LimitIsLeast | include/boost/rational.hpp:571-612 | the range used for `*=` and `/=` is the least symmetric one that holds operands and result |
| Rationals.Rational.AddInteger | include/boost/rational.hpp:293-298 | the canonical sum with an integer, no gcd needed |
| Rationals.Rational.SubtractInteger | include/boost/rational.hpp:299-304 | the canonical difference |
| Rationals.Rational.MultiplyInteger | include/boost/rational.hpp:305-313 | the canonical product |
| Rationals.Rational.DivideInteger | include/boost/rational.hpp:314-333 | fails exactly on zero, otherwise the canonical ratio |
| Rationals.Rational.Increment | include/boost/rational.hpp:336 | the canonical sum with one |
| Rationals.Rational.Decrement | include/boost/rational.hpp:337 | the canonical difference with one |
| Rationals.Rational.Negated | include/boost/rational.hpp:508-513 | the negated numerator over the same denominator |
| Rationals.Rational.Absolute | include/boost/rational.hpp:1005-1010 | the absolute numerator over the same denominator |
| Rationals.Rational.Equals | include/boost/rational.hpp:868-873 | comparing the fields decides equality of the values |
| Rationals.Rational.EqualsInteger | include/boost/rational.hpp:400-404 | decides equality with an integer |
| Rationals.Rational.LessThan | include/boost/rational.hpp:785-866 | for all numerators and positive denominators, in lowest terms or not, the continued fraction loop ends and is true exactly when n1 d2 < n2 d1; every value computed for an operand fits the symmetric range of that operand's own numerator and denominator |
| Rationals.Rational.LessThanInteger | include/boost/rational.hpp:378-394 | for every positive denominator true exactly when n < i d, from the floor alone |
| Rationals.Rational.GreaterThanInteger | include/boost/rational.hpp:395-399 | true exactly when n > i d |
| Ordering.FloorDivide | include/boost/rational.hpp:797-814 | truncating division followed by adding the denominator while the remainder is negative is floor division |
| Ordering.QuotRange | include/boost/rational.hpp:799-841 | quotient, remainder and a quotient still to be lowered stay in any symmetric range that holds the operands |
| IntegerOps.FactorInRange | include/boost/rational.hpp:577-605 | a cancelled operand, and any gcd cancelled from a nonzero one, stays in a symmetric range that holds the operand |
| Ordering.RemaindersDecide | include/boost/rational.hpp:816-841 | with equal quotients the order is that of the reciprocals of the fractional parts, turned round; when one part is zero it is decided |
| FractionLaws.SumAssociates | include/boost/rational.hpp:517-549 | addition is associative on stored pairs |
| FractionLaws.ProductAssociates | include/boost/rational.hpp:571-583 | multiplication is associative on stored pairs |
| FractionLaws.ProductDistributes | include/boost/rational.hpp:517-583 | multiplication distributes over addition on stored pairs |
| FractionLaws.SumCommutes | include/boost/rational.hpp:517-583 | addition and multiplication commute on stored pairs |
| FractionLaws.DifferenceUndoesSum | include/boost/rational.hpp:517-568 | subtracting what was added restores the pair |
| FractionLaws.RatioUndoesProduct | include/boost/rational.hpp:571-612 | dividing by what was multiplied restores the pair |
| FractionLaws.OrderIsTotal | include/boost/rational.hpp:785-873 | of two stored pairs exactly one of less, equal, greater holds |
| FractionLaws.OrderIsTransitive | include/boost/rational.hpp:785-866 | the order is transitive |
| FractionLaws.SumKeepsOrder | include/boost/rational.hpp:517-866 | adding the same rational to both sides keeps the order, in both directions |
| Evaluators.NormalizedIsInvariant | include/boost/rational.hpp:412-435 | the check by the class's own recursive gcd on truncated remainders accepts exactly what the invariant accepts |
| Evaluators.GcdEvaluator | include/boost/rational.hpp:1012-1025 | builds the canonical fraction of numerators' gcd over denominators' lcm |
| Evaluators.LcmEvaluator | include/boost/rational.hpp:1027-1040 | builds the canonical fraction of numerators' lcm over denominators' gcd |
| Evaluators.FractionGcdIsGreatest | include/boost/rational.hpp:1012-1025 | both rationals are integer multiples of the gcd, and of every rational of which both are multiples the gcd is one too |
| Evaluators.FractionLcmIsLeast | include/boost/rational.hpp:1027-1040 | the lcm is a multiple of both, and every common multiple is a multiple of it |
| Evaluators.GcdTimesLcm | include/boost/rational.hpp:1012-1040 | their product is the absolute value of the product |
| Runs.BinarySteps | include/boost/rational.hpp:293-333 | with the object itself, another rational or an integer as operand, an unreduced step fails exactly on a zero denominator, or a zero divisor, and otherwise gives the sum, difference, product or quotient of the real numbers |
| Runs.BinaryStepsOnStored | include/boost/rational.hpp:517-612 | the canonical pair of an unreduced step's result is the canonical sum, difference, product or ratio of the canonical pairs of start and operand |
| Runs.OtherSteps | include/boost/rational.hpp:210-350 | assignment fails exactly on a zero denominator and gives n/d; increment, decrement and minus add one, subtract one and negate |
| Runs.ShortRuns | include/boost/rational.hpp:293-350 | a run of no steps changes nothing, and a run of one step is that step |
| Runs.RunConcat | include/boost/rational.hpp:293-350 | a run of two parts is the second part run from where the first ends, unless the first throws |
| Runs.ExecuteAll | include/boost/rational.hpp:210-612 | any run of in-place operations, with the object itself, another rational or an integer as operand, throws exactly where schoolbook arithmetic without any reduction does, keeps the invariant, and leaves the canonical fraction of the schoolbook value |

## Left out

- Divider.CrcModuloWordUpdate: the arithmetic conversions of C++ are modelled by their effect after truncation to the register's W bits only.
- Tables.MakePartialXorProductsTable: the library builds each table once and keeps it in a static; the model builds the same table where it is used.
- Drivers.DirectByteUpdate: says nothing about the bits above n, which no other routine reads and the documentation calls unregulated.
- Computers.CrcOptimal.ProcessBytes: without a reflected table it says nothing about the bits above n, for the same reason.
- Computers.CrcBasic.ProcessBytes: pointers and pointer ranges are a sequence of bytes; `process_block` and `process_bytes` are one method.
- CommonFactor.IntegerGcd: integers are unbounded, so the special treatment of the smallest value of a signed type is not modelled.
- Rationals.Rational.Normalize: the exception for a denominator that cannot be negated in a bounded type is not modelled, for the same reason.
- Rationals.Rational.AddAssign: no range is claimed for its intermediate values, since the cross sum may exceed operands and result.
- Rationals.Rational.MultiplyAssign: the values inside the gcd routine are not claimed to fit the range, only the gcds it returns.
- Rationals.Rational.DivideAssign: the same.
- Rationals.Rational.DivideInteger: the operand is a value; an operand that refers to the object's own numerator is outside the model.
- The augmented updates of the reflected and sub-byte drivers: no public function of the library reaches them.
- Stein's and the plain Euclidean gcd: the library selects the mixed algorithm for integer types.
- Stream input and output, conversions between integer types and to floating point, and overload selection of `rational.hpp`.
- The function objects, getters and call operators that only forward.
- The server itself (`src/`, `include/services/`, `include/network/`, `include/data/`): sockets, signals, threads and a database.
