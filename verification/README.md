# Verified models of the number, text and job engines

A Dafny project that models the hardest parts of the miner and of the {fmt}
library it carries, and proves what they compute. Machine words are explicit:
`U32` and `U64` are bounded naturals, and wherever an operation wraps in the
original the model takes the remainder modulo 2^32 or 2^64 and the proofs deal
with it.

* **Multi-precision numbers** (`Bigits`, `BigitProducts`, `BigitOrder`,
  `BigitDivision`, `BigitSquare`, `Bigint`): the class `Bigint` with its carry
  loops, over lemmas on scaled sequences of 32-bit bigits. A bigint with bigits
  b and exponent e denotes the sum of b[i] * 2^(32 * (i + e)).
* **Digit generation**: `Dragon4` prints a binary floating-point number to a
  given number of digits, correctly rounded half to even; `Grisu` is the fast
  form in 64-bit arithmetic that is right or gives up; `FormatFloat` puts the two
  together and says when what is printed is the number correctly rounded;
  `Decimal` holds the meaning of digit strings and of rounding.
* **Wide products and trailing zeros** (`WideMul`, `TrailingZeros`): products
  from 32-bit limbs, and divisibility by modular inverses of powers of five.
* **Integers and floating-point layout** (`DigitCount`, `IntegerText`,
  `FloatText`): counting, printing and reading decimal digits, and the layouts
  of a significand and exponent, each proved against what the text denotes.
* **Format strings**: `FormatParser` gives the grammar, `FormatScanner` the
  parser with its two scanning strategies, `FormatRendering` the inverse,
  `FormatSoundness` what is accepted, `Formatting` the interpreter, `Numbering`
  what its fields print told by the arguments, `Compile` the compiler and the loop that runs
  compiled parts, `PartCounter` the count of parts made in advance by a handler
  that errors do not stop.
* **Output and text** (`Buffers`, `Utf`, `Base32`, `Positional`): chunked
  buffers, the branchless UTF-8 decoder (RFC 3629) with the transcoder to
  UTF-16 (RFC 2781), and the base-32 encoder (section 6 of RFC 4648).
* **The miner** (`Mining`, `Miner`, `GpuResults`, `JobQueue`, `JobResults`): the
  pausing machine driven by pools, timers and datasets, and the result queue
  under every interleaving of submissions, event loop and worker threads.

`Arith` holds powers, products and division. Objects that the original updates
in place are classes whose methods are proved against functions of their state;
the theorems about these functions are lemmas beside them. `dafny verify
dfyconfig.toml` checks the whole project.

## What the proofs found

Where a natural expectation is false of the code, the model keeps the code, a
lemma gives the exact condition, and often another a concrete failing input.

* `compare` tells apart equal bigints of which one stores low zero bigits
  explicitly (`BigitOrder.PaddedCopiesCompareUnequal`); it is exact if and only
  if there is no such padding. `divmod_assign` therefore returns 0 for a divisor
  that is the dividend padded; digit generation never meets that case.
* `subtract_aligned` takes a final borrow from one fixed bigit; the difference
  is exact if and only if no borrow meets a zero there
  (`BigitDivision.BorrowCanBeLost`). Dividends below 2^32 times the divisor are
  safe, and so all of digit generation is.
* `fallback_format` shifts the denominator by one even when the numerator was
  shifted by two, so for exponents e >= 0 with the closer predecessor (powers of
  two from 2^52 on, from 2^23 on for floats) it sets up twice the value. What it
  prints is then wrong unless both the value and its double round to zero, or
  both to one (`Dragon4.FallbackFormat`, an if and only if). A double of ten or
  more units also makes the first character no digit, or lets it be taken for a
  carry: for 2^53 the first quotient is 18 (`Dragon4.FirstQuotientEighteen`).
  The comment at line 2355 of format-inl.h states an invariant that fails there.
* `format_float` in general notation with precision 0 asks the fast form for one
  digit but the exact form for none, which then rounds one place higher. Where
  the fast form cannot decide (`Grisu.Decides`, of the input alone) the result is
  right only for numbers that round to ten of the unit (`FormatFloat.FormatFloat`,
  an if and only if): 9.5 is, but of 2.5 no digits are left (`FormatFloat.TwoAndAHalf`)
  and it is printed as "00" (`FormatFloat.PrintTwoAndAHalf`). For an empty
  significand `write_float` writes zeros, or nothing if the exponent is 0, or
  copies from beyond the significand in the layout with an exponent
  (`FloatText.WriteFloat`).
* In fixed notation the exact form carries into a new first digit without adding a
  zero, as the fast form does, so one place is missing exactly when the fast form
  cannot decide and the number rounds to ten units of its first place
  (`FormatFloat.Write`): 9.999999995e-37 with 45 places is printed with 44
  (`FormatFloat.PrintLostPlace`).
* Precisions are cut to 767. That many significant digits are all that a double
  has, but not that many fixed places: 2^-768 with 768 places loses its last
  digit (`FormatFloat.CutPrecision`, `FormatFloat.LastDigitIsCut`).
* A compiled format string silently prints nothing for a missing argument, where
  the interpreter reports an error.
* The part counter never counts too many parts. It counts too few exactly when a
  field whose type is an opening brace is followed by anything
  (`PartCounter.CountsParts`): "{:1{}a" has two parts and is counted as one.
* An iterator buffer made for fewer than 256 characters is not emptied when it is
  full, so `append` does not end with a text for which there is no room
  (`Buffers.AppendEnds`). Only `vformat_to_n` (line 2026 of core.h) makes such a
  buffer, with the traits of a fixed size.
* A 128-bit argument for a width or precision is cut to 64 bits before its range
  is checked, so 2^64 + 5 is taken as 5; `Formatting.CountOfArgument` says exactly
  which values are affected.
* After a stop, a dataset that becomes ready revives a miner that is enabled but
  has no active pool; in all other runs an unpaused miner runs or was told to
  end, however often it is stopped (`Mining.EveryRunWithStops`).

## Model

| member | source | states |
|---|---|---|
| `BigintModel.Bigint.FromWord` | src/3rdparty/fmt/format-inl.h:1301 | A bigint made from any 64-bit word denotes that word with exponent 0, in at most two bigits, normalised unless zero. |
| `BigintModel.Bigint.Assign` | src/3rdparty/fmt/format-inl.h:1307-1313 | Copying takes over the bigits and the exponent of the other number. |
| `BigintModel.Bigint.AssignWord` | src/3rdparty/fmt/format-inl.h:1315-1323 | The bigits split off a 64-bit word denote exactly that word. |
| `BigintModel.Bigint.constructor` | src/3rdparty/fmt/format-inl.h:1300 | A new bigint has no bigits and exponent 0. |
| `BigintModel.Bigint.Multiply32` | src/3rdparty/fmt/format-inl.h:1271-1280 | The denoted value is multiplied by exactly the 32-bit factor, whatever the exponent; normal numbers stay normal for positive factors. |
| `BigintModel.Bigint.Multiply64` | src/3rdparty/fmt/format-inl.h:1282-1297 | The value is multiplied by exactly the 64-bit factor; every intermediate carry and result fits its 64-bit word. |
| `BigitProducts.ColumnStep` | src/3rdparty/fmt/format-inl.h:1287-1292 | One column of the carry loop keeps: multiplied low bigits plus carry at the next weight are the product so far. |
| `BigitProducts.WideColumn` | src/3rdparty/fmt/format-inl.h:1288-1291 | A column of the 64-bit form, split in two 32-bit halves, loses nothing of the product. |
| `BigitProducts.WideCarryFits` | src/3rdparty/fmt/format-inl.h:1288-1290 | Result and carry of every column stay within 64 bits. |
| `BigitProducts.CarryBelowFactor` | src/3rdparty/fmt/format-inl.h:1286-1293 | In every round of the loop the carry is below a positive factor, so for one of 64 bits it is at most 2^64 - 2. |
| `BigitProducts.LargestCarry` | src/3rdparty/fmt/format-inl.h:1286-1293 | That carry is reached, by two bigits and a factor with all bits set. |
| `BigintModel.Bigint.ShiftLeft` | src/3rdparty/fmt/format-inl.h:1327-1340 | Shifting multiplies the value by exactly 2^shift and adds shift div 32 to the exponent. |
| `BigintModel.Bigint.Compare` | src/3rdparty/fmt/format-inl.h:1348-1362 | The result is the sign of lhs - rhs if and only if neither operand is the other with explicit low zero bigits (and no zero operand is stored past the other); in the excluded cases the padded operand is reported as larger. |
| `BigitOrder.ComparisonSplits` | src/3rdparty/fmt/format-inl.h:1348-1362 | The split into negative and nonnegative results is exact unless the right operand is the left one padded with low zeros. |
| `BigitOrder.PaddedCopiesCompareUnequal` | src/3rdparty/fmt/format-inl.h:1356-1361 | Concrete equal values, [1] with exponent 1 and [0, 1] with exponent 0, that the comparison tells apart. |
| `BigintModel.Bigint.AddCompare` | src/3rdparty/fmt/format-inl.h:1365-1386 | The result is the sign of lhs1 + lhs2 - rhs for operands with different exponents; the only exceptions concern zero operands stored past the others, and their answers are given. |
| `BigitOrder.BorrowColumn` | src/3rdparty/fmt/format-inl.h:1376-1384 | One column of the running borrow equals the gap of the leading parts, and a gap below 0 or above 1 already decides the comparison. |
| `BigitOrder.FinalGap` | src/3rdparty/fmt/format-inl.h:1385 | After the last column the borrow is zero exactly when the sum equals the right operand. |
| `BigintModel.Bigint.RemoveLeadingZeros` | src/3rdparty/fmt/format-inl.h:1253-1257 | Dropping high zero bigits keeps the value and leaves a trimmed number. |
| `BigintModel.Bigint.SubtractBigits` | src/3rdparty/fmt/format-inl.h:1247-1251 | The wrapping 64-bit subtraction yields bigit and borrow bit of the exact difference, and touches no other bigit. |
| `BigintModel.Bigint.SubtractAligned` | src/3rdparty/fmt/format-inl.h:1260-1269 | The result is the exact difference if and only if no borrow has to pass a zero bigit above the subtrahend, as the final loop does not advance its index. |
| `BigitDivision.SmallQuotientKeepsBorrow` | src/3rdparty/fmt/format-inl.h:1260-1269 | When the minuend is below 2^32 times the subtrahend, as in every division of digit generation, no borrow is lost. |
| `BigitDivision.BorrowCanBeLost` | src/3rdparty/fmt/format-inl.h:1267 | A concrete minuend and subtrahend for which a borrow is lost. |
| `BigintModel.Bigint.Align` | src/3rdparty/fmt/format-inl.h:1440-1449 | Aligning keeps the value and normality and lowers the exponent to the smaller of the two. |
| `BigintModel.Bigint.DivModAssign` | src/3rdparty/fmt/format-inl.h:1453-1464 | Repeated subtraction terminates with floor(this / divisor) and leaves this mod divisor, unless the divisor is this number padded with low zeros, when it returns 0 and changes nothing. |
| `BigitDivision.AtLeastOnce` | src/3rdparty/fmt/format-inl.h:1459-1462 | Each subtraction of the loop is possible, exact, and keeps value + divisor * quotient constant. |
| `BigintModel.Bigint.Square` | src/3rdparty/fmt/format-inl.h:1408-1436 | The value is squared and the exponent doubled, for any number of bigits. |
| `BigitSquare.ColumnsValue` | src/3rdparty/fmt/format-inl.h:1415-1432 | The columns of cross products, each with its weight, add up to the square. |
| `BigitSquare.LowColumn` | src/3rdparty/fmt/format-inl.h:1418-1421 | The inner loop of the low half adds exactly the cross products of its column without overflow of the accumulator. |
| `BigitSquare.HighColumn` | src/3rdparty/fmt/format-inl.h:1428-1429 | The inner loop of the high half adds exactly the cross products of its column without overflow of the accumulator. |
| `BigitSquare.Accumulator.Add` | src/3rdparty/fmt/format-inl.h:1218-1221 | The two-word accumulator adds like a 128-bit integer, modulo 2^128. |
| `BigitSquare.Accumulator.ShiftRight32` | src/3rdparty/fmt/format-inl.h:1222-1227 | The two-word accumulator shifts like a 128-bit integer and gives up its low word. |
| `BigintModel.Bigint.AssignPow10` | src/3rdparty/fmt/format-inl.h:1389-1406 | For every 0 <= n < 2^30 the value is exactly 10^n, with exponent n div 32, by repeated squaring over the bits of n. |
| `BigintModel.NextBit` | src/3rdparty/fmt/format-inl.h:1400-1404 | One step of left-to-right exponentiation: the next bit of the exponent squares the power of five and multiplies by five when set. |
| `Decimal.CarryNines` | src/3rdparty/fmt/format-inl.h:2406-2410 | The carry loop turns a ten at the end into a carry through any run of nines, keeps the denoted value, and leaves digits behind the first character. |
| `Decimal.HalfEvenUnique` | src/3rdparty/fmt/format-inl.h:2401-2402 | Rounding half to even has at most one result. |
| `Decimal.RoundQuotient` | src/3rdparty/fmt/format-inl.h:2400-2419 | The rule on the last digit (round up above half, or at half when odd) gives the half-to-even rounding of the whole fraction. |
| `Dragon4.NextDigit` | src/3rdparty/fmt/format-inl.h:2396-2398 | Each division leaves exactly the remainder; the quotient is a digit if and only if the fraction is below ten, and at most 19 for one below twenty. |
| `Dragon4.CompareTwice` | src/3rdparty/fmt/format-inl.h:2401 | add_compare(r, r, d) is the sign of 2r - d for every remainder that digit generation meets. |
| `Dragon4.TimesTen` | src/3rdparty/fmt/format-inl.h:2398 | Scaling the remainder by ten keeps the fraction below ten and separable. |
| `Dragon4.PropagateCarry` | src/3rdparty/fmt/format-inl.h:2404-2415 | Carry propagation denotes the same number, with the exponent moved when the carry leaves the front; a first quotient of ten that stands there is taken for a carry, and if digits come out the number is no smaller than before. |
| `Dragon4.WriteDigit` | src/3rdparty/fmt/format-inl.h:2395-2399 | One round of the digit loop writes the next exact digit, or a first quotient up to 19, and keeps what is written and the remainder equal to the value. |
| `Dragon4.NoDigits` | src/3rdparty/fmt/format-inl.h:2388-2393 | With no digits requested the single character says whether the value is above five units, which is the value over ten rounded half to even when it is below ten. |
| `Dragon4.LastDigits` | src/3rdparty/fmt/format-inl.h:2400-2419 | The last digit, its rounding and its carry together round the whole number half to even; for a fraction of ten or more there are no digits, or their number is not below the rounded one. |
| `Dragon4.GenerateDigits` | src/3rdparty/fmt/format-inl.h:2386-2420 | For any normalised fraction below ten with separable exponents and any digit count, the characters and returned exponent are the value correctly rounded half to even; from ten to below twenty a non-digit is printed, or a number that is not below the rounded one. |
| `Dragon4.SetUp` | src/3rdparty/fmt/format-inl.h:2313-2355 | The numerator and denominator that are set up denote f * 2^e / 10^exp10 in every branch, except that the fraction is doubled when e >= 0 and the predecessor is closer. |
| `Dragon4.SetUpSeparable` | src/3rdparty/fmt/format-inl.h:2325-2334 | What is set up for e >= 0 can be divided digit by digit: low zero bigits never make the numerator look like the padded denominator, for any significand, e and exp10. |
| `Dragon4.FarTooLarge` | src/3rdparty/fmt/format-inl.h:2333 | A number that is not below the rounding of twice a fraction of five or more is never the rounding of the fraction. |
| `Dragon4.DoubledDigits` | src/3rdparty/fmt/format-inl.h:2333 | The rounding of twice a fraction is the rounding of the fraction exactly when both round to zero or both to one, which is given by bounds on the fraction. |
| `Dragon4.FallbackFormat` | src/3rdparty/fmt/format-inl.h:2306-2420 | The fixed-precision mode, for every fraction below ten and every digit count including zero: the characters are the digits of f * 2^e / 10^exp10, correctly rounded half to even, if and only if e < 0, or the predecessor is not closer, or rounding hides the doubling. |
| `Dragon4.FirstQuotientEighteen` | src/3rdparty/fmt/format-inl.h:2333 | For 2^53 the first quotient is 18, and no digit count from one on is printed right. |
| `Dragon4.NoDigitsMisrounded` | src/3rdparty/fmt/format-inl.h:2388-2393 | For 2^52 with no digits requested the character is 1 where the value rounds to 0. |
| `DigitCount.NumDigitsBounds` | src/3rdparty/fmt/format.h:915-916 | The digit count d satisfies 10^(d-1) <= n < 10^d. |
| `DigitCount.NumDigitsUnique` | src/3rdparty/fmt/format.h:915-916 | It is the only such d (1 for zero). |
| `DigitCount.TableCounts` | src/3rdparty/fmt/format.h:898-920 | For every 64-bit word the table entry of its top bit, corrected by one comparison with a power of ten, is the digit count. |
| `DigitCount.CountDigits` | src/3rdparty/fmt/format.h:917-921 | The leading-zero form returns the digit count for every 64-bit word. |
| `DigitCount.CountDigitsByGroups` | src/3rdparty/fmt/format.h:924-937 | The loop that divides by 10000 returns the digit count. |
| `IntegerText.FormatDecimal` | src/3rdparty/fmt/format.h:1044-1065 | Exactly the decimal digits of the value are written, ending at the given size, and nothing else is touched. |
| `IntegerText.DecimalInjective` | src/3rdparty/fmt/format.h:1041-1043 | Two digit strings of the same length and value are the same, so the digits written are the only ones. |
| `IntegerText.Copy2` | src/3rdparty/fmt/format.h:1030-1034 | Two characters are copied and nothing else changes. |
| `IntegerText.ParseNonnegativeInt` | src/3rdparty/fmt/format.h:2233-2252 | Every run of digits is read to its end; the result is its value up to INT_MAX and an error exactly above, and the 32-bit accumulator never wraps. |
| `IntegerText.ReadBack` | src/3rdparty/fmt/format.h:1044-1065 | Reading the printed digits of v gives v back when it fits an int, and the overflow error otherwise. |
| `FloatText.WriteExponent` | src/3rdparty/fmt/format.h:1293-1311 | For -10000 < exp < 10000 the text is the sign and two digits, or as many as the exponent has, that denote exactly exp. |
| `FloatText.WriteFloat` | src/3rdparty/fmt/format.h:1734-1807 | For every significand, the empty one and one with a character beyond the digits included, and every format: the text, read as a decimal with optional point and exponent, is exactly significand * 10^exp if all are digits and the layout shows one, and no number otherwise; measured on the text, so many characters stand in front of the point and behind it, a point stands exactly before places or with showpoint, and the exponent has its letter and value; an empty significand has no layout with an exponent, and otherwise is zeros. |
| `FloatText.DenotesOneNumber` | src/3rdparty/fmt/format.h:1734-1807 | A text denotes one number, so the layouts cannot be read in two ways. |
| `FloatText.NotANumber` | src/3rdparty/fmt/format.h:1734-1807 | No text with a character beyond the digits in its mantissa is read as a number. |
| `FloatText.WriteScientific` | src/3rdparty/fmt/format.h:1750-1760 | The exponent layout denotes the number, with one character in front of the point, the other digits and the zeros asked for behind it, and the exponent at the end. |
| `FloatText.WriteInteger` | src/3rdparty/fmt/format.h:1763-1779 | The integer layout denotes the number exactly when it shows a digit, with as many characters in front of the point as it has, and the places asked for behind it. |
| `FormatFloat.FinishedIsRounded` | src/3rdparty/fmt/format-inl.h:1500-1578 | Finished fast digits of a scaled number whose error is below one unit are the number itself rounded half to even, at the requested decimal place. |
| `FormatFloat.FirstDigit` | src/3rdparty/fmt/format-inl.h:2457-2468 | The scaling puts the first digit of the number where the fast form puts its own: the fraction handed to the exact form is below ten, and at least three quarters. |
| `FormatFloat.ExactRounds` | src/3rdparty/fmt/format-inl.h:2467-2468 | What the exact form rounds with the exponent that it is handed is the number at the place of its last digit. |
| `FormatFloat.NothingOrTen` | src/3rdparty/fmt/format-inl.h:2386-2393 | The single character for no digits stands for nothing or for ten where one digit is due, which is right exactly for numbers from nine and a half on. |
| `FormatFloat.DoublingShows` | src/3rdparty/fmt/format-inl.h:2333 | For a number of about one and more, doubling is hidden only from a single character, and there only above five. |
| `FormatFloat.FastDigits` | src/3rdparty/fmt/format-inl.h:2465-2472 | The fast form finishes if and only if the scaled number can be decided, then with the number correctly rounded; else it hands the place of the first digit and the digits asked for to the exact form. |
| `FormatFloat.ExactDigits` | src/3rdparty/fmt/format-inl.h:2467-2468 | The exact form, called after the fast one, is correctly rounded if and only if a stated bound holds: 19 * den <= 2 * num without digits in general notation, otherwise no doubling or a single character above five. |
| `FormatFloat.RemoveTrailingZeros` | src/3rdparty/fmt/format-inl.h:2473-2481 | Removing trailing zeros and raising the exponent keeps the number; the last digit left is no zero, and nothing is left exactly of zeros. |
| `FormatFloat.RoundedFurtherDown` | src/3rdparty/fmt/format-inl.h:2462-2464 | A multiple of a unit is the number rounded at a finer place if and only if it is so at its own and the number lies within half a finer unit of such a multiple. |
| `FormatFloat.EnoughDigits` | src/3rdparty/fmt/format-inl.h:2462-2464 | A double is a multiple of the unit of its 767th significant digit. |
| `FormatFloat.CutPrecision` | src/3rdparty/fmt/format-inl.h:2462-2464 | Cutting the precision to 767 never matters for significant digits, and for fixed places exactly when what is cut off does. |
| `FormatFloat.FormatFloat` | src/3rdparty/fmt/format-inl.h:2422-2483 | For every number, precision and notation: digits and exponent are the number rounded half to even at the place asked for, if and only if the fast form decides the scaled number or a stated bound holds for the exact form, and no fixed places that matter were cut; where the first and the last digit stand, with the one exception of a carry of the exact form in fixed notation; without showpoint no zero at the end; when nothing is left of the digits, and with which exponent; for zero the exact digits. |
| `FormatFloat.PrintDigits` | src/3rdparty/fmt/format-inl.h:2465-2472 | Before zeros are removed: correct exactly under the stated condition, with first and last digit where they are asked for. |
| `FormatFloat.SpanCarries` | src/3rdparty/fmt/format-inl.h:2406-2415 | Correct digits are a carried one with zeros exactly when the number rounds to ten units of its first place. |
| `FormatFloat.ScaledByPower` | src/3rdparty/fmt/format-inl.h:2457-2461 | A significand normalised by shifting, multiplied by a cached power of ten that is within half a unit and rounded to 64 bits, is less than one unit away from the scaled number. |
| `FormatFloat.PrintedIsRounded` | src/3rdparty/fmt/format.h:1857-1870 | A text that denotes digits and exponent denotes the number correctly rounded exactly when these are. |
| `FormatFloat.LayoutOf` | src/3rdparty/fmt/format.h:1734-1807 | Digits that reach where they were asked to are laid out with the places and the exponent asked for. |
| `FormatFloat.Write` | src/3rdparty/fmt/format.h:1857-1870 | Digits and layout together: the text is the number rounded half to even at the place asked for if and only if the digits are; then in fixed notation exactly the places asked for are shown, less one exactly when the exact form carries into a new first digit; elsewhere with showpoint as many digits as asked for, and without it no zeros at the end; the exponent is that of the rounded number; zero is laid out likewise; where nothing is left of the digits the text is given, and when there is none. |
| `FormatFloat.HalfwayIsUndecided` | src/3rdparty/fmt/format-inl.h:1473-1487 | A number halfway between two multiples of a place is never decided by the fast form. |
| `FormatFloat.TwoAndAHalf` | src/3rdparty/fmt/format-inl.h:2386-2393 | 2.5 in general notation with precision 0: the fast form cannot decide, the exact one is not rounded, and no digit is left. |
| `FormatFloat.NineAndAHalf` | src/3rdparty/fmt/format-inl.h:2386-2393 | 9.5 in the same notation is undecided too, and printed right. |
| `FormatFloat.PrintTwoAndAHalf` | src/3rdparty/fmt/format.h:1857-1870 | 2.5 with precision 0 is printed as two zeros. |
| `FormatFloat.PlaceLost` | src/3rdparty/fmt/format-inl.h:2406-2415 | 9.999999995e-37 with 45 fixed places: undecided by the fast form, and rounding to ten units of its first place. |
| `FormatFloat.PrintLostPlace` | src/3rdparty/fmt/format.h:1857-1870 | It is printed with 44 places. |
| `FormatFloat.LastDigitIsCut` | src/3rdparty/fmt/format-inl.h:2462-2464 | 2^-768 with 768 fixed places loses its last digit. |
| `Grisu.GetRoundDirection` | src/3rdparty/fmt/format-inl.h:1473-1487 | Down and up are reported exactly when every value within the error rounds that way; no 64-bit operation overflows. |
| `Grisu.RoundedDigits` | src/3rdparty/fmt/format-inl.h:1473-1487 | Rounding the exact digits by a known direction gives a nearest decimal of every real within the error. |
| `Grisu.FixedHandler.constructor` | src/3rdparty/fmt/format-inl.h:1581-1586 | A handler starts with no digits. |
| `Grisu.FixedHandler.OnStart` | src/3rdparty/fmt/format-inl.h:1588-1603 | Decides whether digits are needed; with exactly none, one rounded digit or an error. |
| `Grisu.FixedHandler.OnDigit` | src/3rdparty/fmt/format-inl.h:1605-1633 | Collects digits; when done, the digits and exponent denote the collected number, rounded up by one unit if so directed; an error is reported exactly when the digits cannot be rounded. |
| `Grisu.FixedHandler.RoundUp` | src/3rdparty/fmt/format-inl.h:1622-1631 | Adding one with carry denotes the successor; a carry out of the front leaves a one with zeros, with one digit more in fixed mode and else a higher exponent. |
| `Grisu.DivmodIntegral` | src/3rdparty/fmt/format-inl.h:1519-1562 | Dividing off one integral digit keeps digits and remainder exact, and neither divisor nor remainder overflows 64 bits. |
| `Grisu.BeginDigits` | src/3rdparty/fmt/format-inl.h:1512-1516 | When no digits are needed the handler holds one nearest digit or none, or it reports that it cannot decide. |
| `Grisu.IntegralDigits` | src/3rdparty/fmt/format-inl.h:1518-1567 | The integral loop yields at most ten digits, exact together with what is left. |
| `Grisu.FractionalDigits` | src/3rdparty/fmt/format-inl.h:1569-1577 | The unbounded fractional loop terminates, because the error grows tenfold while it stays below one, without overflow. |
| `Grisu.StuckByRemainder` | src/3rdparty/fmt/format-inl.h:1563-1577 | Whether a digit can be rounded depends on the remainder of the scaled number alone, so on the input. |
| `Grisu.Verdict` | src/3rdparty/fmt/format-inl.h:1605-1633 | One verdict of the handler settles what it says about the whole number: stuck here, free so far, or decided. |
| `Grisu.StuckExactly` | src/3rdparty/fmt/format-inl.h:1473-1487 | Giving up is justified, and nothing else is given up: a place is stuck exactly where the digits so far are not those of all reals within the error, or, at the last, no multiple is nearest for all of them or the error reaches half a unit. |
| `Grisu.UndecidedNearHalf` | src/3rdparty/fmt/format-inl.h:1512-1516 | In front of the digits it is undecided near a half only, and there always. |
| `Grisu.GenerateDigits` | src/3rdparty/fmt/format-inl.h:1500-1578 | For -60 <= e <= -32 and a nonzero integral part: a run finishes if and only if no remainder that digit generation meets, and not the one at the last place, is undecidable within the error; a finished run leaves a nearest decimal at the requested place for every real within one unit, and an error names the place where it is stuck, after at most 31 characters. |
| `WideMul.Uint128.Plus` | src/3rdparty/fmt/format.h:845-856 | Adding a word to the pair of words is addition modulo 2^128. |
| `WideMul.Umul128` | src/3rdparty/fmt/format-inl.h:1639-1665 | The pair of words built from four 32-bit products is the exact 128-bit product. |
| `WideMul.Umul128Upper64` | src/3rdparty/fmt/format-inl.h:1668-1678 | The high word is the product divided by 2^64. |
| `WideMul.Umul192Upper64` | src/3rdparty/fmt/format-inl.h:1682-1687 | The high word of the 64 by 128-bit product. |
| `WideMul.Umul192Middle64` | src/3rdparty/fmt/format-inl.h:1697-1702 | The middle word of the 64 by 128-bit product, in wrapping arithmetic. |
| `WideMul.Multiply` | src/3rdparty/fmt/format-inl.h:1175-1184 | The portable form equals (x * y + 2^63) div 2^64; its middle sum does not overflow. |
| `WideMul.MultiplyWide` | src/3rdparty/fmt/format-inl.h:1171-1174 | The 128-bit form gives the same result as the portable one. |
| `TrailingZeros.InverseDivides` | src/3rdparty/fmt/format-inl.h:1761-1771 | n times the inverse of d modulo m is at most (m-1) div d exactly when d divides n, and then it is the quotient. |
| `TrailingZeros.Entry32IsInverse` | src/3rdparty/fmt/format-inl.h:321-327 | Every entry of the 32-bit table is the inverse of its power of five with the largest quotient. |
| `TrailingZeros.Entry64IsInverse` | src/3rdparty/fmt/format-inl.h:330-354 | Every entry of the 64-bit table is the inverse of its power of five with the largest quotient. |
| `TrailingZeros.DivisibleByPowerOf5In32` | src/3rdparty/fmt/format-inl.h:1762-1766 | True exactly for multiples of 5^exp, exp <= 10. |
| `TrailingZeros.DivisibleByPowerOf5In64` | src/3rdparty/fmt/format-inl.h:1767-1771 | True exactly for multiples of 5^exp, exp <= 23. |
| `TrailingZeros.RemoveTrailingZeros32` | src/3rdparty/fmt/format-inl.h:2003-2028 | n_out * 10^s = n_in with s the number of trailing zeros, or the cap 7. |
| `TrailingZeros.WrappedRemainder` | src/3rdparty/fmt/format-inl.h:2067-2068 | The 32-bit product at line 2068 may wrap, and the remainder by 10^8 is right all the same. |
| `TrailingZeros.RemoveFromQuotient` | src/3rdparty/fmt/format-inl.h:2050-2063 | When 10^8 divides the number, all its zeros up to the cap are removed from the 32-bit quotient. |
| `TrailingZeros.RemoveFromRemainder` | src/3rdparty/fmt/format-inl.h:2066-2112 | Otherwise all its zeros are found in the remainder by 10^8, and the quotient is put back in front. |
| `TrailingZeros.RemoveTrailingZeros64` | src/3rdparty/fmt/format-inl.h:2031-2113 | For 0 < n <= (2^64-1)/1000: n_out * 10^s = n_in with s the number of trailing zeros, or the cap 16. |
| `Base32.Encode` | src/3rdparty/base32/base32.h:35-65 | Writes the first min(bufSize, ceil(8*length/5)) characters of the encoding of section 6 of RFC 4648 without padding and returns that count; refuses lengths outside 0 to 2^28; terminates the text where there is room. |
| `Base32.EncodeGroups` | src/3rdparty/base32/base32.h:41-60 | The loop writes exactly the characters that fit and that the input has, and touches nothing after them. |
| `Base32.NextCharacter` | src/3rdparty/base32/base32.h:45-58 | Each step emits the next group of five input bits, the last one completed with zero bits, however the never-masked buffer has wrapped. |
| `Base32.Refill` | src/3rdparty/base32/base32.h:47-53 | Shifting new bits into a buffer that wraps at 32 bits keeps its low bitsLeft bits equal to the input bits not yet written. |
| `Base32.GroupFromPrefix` | src/3rdparty/base32/base32.h:56 | The group at a position is made of the five input bits that the bytes read so far determine. |
| `Base32.DecodeEncode` | src/3rdparty/base32/base32.h:35-65 | Decoding the encoding of any bytes gives the bytes back, and the bits added to the last group are zero. |
| `Utf.ErrorsAreExact` | src/3rdparty/fmt/format-inl.h:2633-2640 | The accumulated error bits are zero exactly for the characters of the grammar in section 4 of RFC 3629. |
| `Utf.DecodesWhatIsEncoded` | src/3rdparty/fmt/format-inl.h:2607-2631 | A valid character decodes to a scalar value whose encoding it is. |
| `Utf.DecodeEncode` | src/3rdparty/fmt/format-inl.h:2606-2642 | The decoder inverts the encoding of every scalar value, whatever bytes follow. |
| `Utf.WellFormedFirst` | src/3rdparty/fmt/format-inl.h:2617-2622 | Whether a text is well formed is decided by the length that the first byte announces. |
| `Utf.Scalars` | src/3rdparty/fmt/format-inl.h:2682-2711 | Every well-formed text is the encoding of a sequence of scalars. |
| `Utf.TextInjective` | src/3rdparty/fmt/format-inl.h:2682-2711 | Different sequences of scalars have different encodings. |
| `Utf.EncodeDecodeText` | src/3rdparty/fmt/format-inl.h:2682-2711 | Encoding any scalars gives a well-formed text from which they are read back, also through UTF-16 by section 2.2 of RFC 2781. |
| `Utf.Utf8ToUtf16.constructor` | src/3rdparty/fmt/format-inl.h:2682 | The buffer starts empty. |
| `Utf.PaddedTail` | src/3rdparty/fmt/format-inl.h:2702-2704 | The copy of the last one to three bytes is followed by zero bytes up to seven. |
| `Utf.Utf8ToUtf16.Push` | src/3rdparty/fmt/format-inl.h:2688-2694 | One code unit or a surrogate pair, as section 2.1 of RFC 2781 has it. |
| `Utf.Utf8ToUtf16.TranscodeOne` | src/3rdparty/fmt/format-inl.h:2683-2696 | One step reads four bytes inside its buffer, advances by 1 to 4 bytes, fails exactly where no character starts, and otherwise appends that character. |
| `Utf.Utf8ToUtf16.TranscodeBlocks` | src/3rdparty/fmt/format-inl.h:2697-2701 | The block loop transcodes whole characters while four bytes are left, or finds the text ill-formed. |
| `Utf.Utf8ToUtf16.TranscodeTail` | src/3rdparty/fmt/format-inl.h:2702-2709 | The copy with zero bytes makes four-byte reads safe, and a character never ends in these zero bytes. |
| `Utf.Utf8ToUtf16.Transcode` | src/3rdparty/fmt/format-inl.h:2682-2711 | Fails exactly on ill-formed UTF-8; otherwise the output is the UTF-16 encoding of the decoded scalars and a terminating zero. |
| `Buffers.Buffer.ToIterator` | src/3rdparty/fmt/core.h:777-780 | A fresh iterator buffer holds nothing and has room for at most 256 characters. |
| `Buffers.Buffer.ToCounter` | src/3rdparty/fmt/core.h:840 | A fresh counting buffer has counted nothing. |
| `Buffers.Buffer.Grow` | src/3rdparty/fmt/core.h:770-773 | A full buffer is emptied into its sink and any other left alone, for both kinds of buffer. |
| `Buffers.Buffer.Flush` | src/3rdparty/fmt/format.h:612-616 | Passing the contents on loses nothing and empties the buffer. |
| `Buffers.Buffer.TryReserve` | src/3rdparty/fmt/core.h:719-725 | Asking for room empties a full buffer and otherwise changes nothing. |
| `Buffers.Buffer.PushBack` | src/3rdparty/fmt/core.h:727-730 | One character is added to what was written, whether or not the buffer was full. |
| `Buffers.Buffer.CopyIn` | src/3rdparty/fmt/format.h:604-607 | One pass adds exactly the characters copied to what was written. |
| `Buffers.Buffer.Append` | src/3rdparty/fmt/format.h:598-609 | All of s is added to what was written; the do-while loop terminates although a pass may only fill the space that is left. |
| `Buffers.PassProgresses` | src/3rdparty/fmt/format.h:601-608 | A pass with characters left copies one exactly when the buffer has room or is of the full size. |
| `Buffers.AppendEnds` | src/3rdparty/fmt/format.h:598-609 | The do-while loop ends if and only if the buffer has 256 characters or room for the whole text; otherwise it copies at most the room there was, in any number of passes. |
| `Buffers.Buffer.Out` | src/3rdparty/fmt/core.h:783-786 | The iterator has then received exactly what was written, in order. |
| `Buffers.Buffer.Count` | src/3rdparty/fmt/core.h:842 | The counting buffer reports the number of characters written. |
| `Buffers.Buffer.Perform` | src/3rdparty/fmt/core.h:727-733 | Any sequence of operations adds exactly their concatenated texts to what was written. |
| `Buffers.FormatToIterator` | src/3rdparty/fmt/core.h:763-788 | For every sequence of appends and push_backs the output is their concatenation. |
| `Buffers.FormattedSize` | src/3rdparty/fmt/core.h:826-843 | The count is the length of that concatenation. |
| `FormatScanner.ParseArgId` | src/3rdparty/fmt/format.h:2585-2616 | An argument id is parsed, or refused, as the grammar has it: automatic, an index below 2^31 without leading zeros, or a name. |
| `FormatScanner.ParseAlign` | src/3rdparty/fmt/format.h:2662-2703 | The alignment is looked for after the first code point and then in its place, as the grammar of fill and alignment has it. |
| `FormatScanner.NextCodePoint` | src/3rdparty/fmt/format.h:2652-2659 | The end of a code point: one byte, or a lead byte and all continuation bytes after it. |
| `FormatScanner.ParseNested` | src/3rdparty/fmt/format.h:2711-2718 | A nested field holds an argument id and is closed at once. |
| `FormatScanner.ParseWidth` | src/3rdparty/fmt/format.h:2705-2720 | A width is a number up to INT_MAX, a nested field, or absent. |
| `FormatScanner.ParsePrecision` | src/3rdparty/fmt/format.h:2722-2742 | A precision after its point is a number up to INT_MAX or a nested field, and must not be missing. |
| `FormatScanner.ParseFormatSpecs` | src/3rdparty/fmt/format.h:2746-2793 | Stopping at the end of the string anywhere, the parser steps over exactly the parts of the specification grammar. |
| `FormatScanner.ParseReplacementField` | src/3rdparty/fmt/format.h:2826-2851 | A field, an escaped brace or an error, as the grammar has it. |
| `FormatScanner.Find` | src/3rdparty/fmt/format.h:2796-2814 | The first position of a character in a range, or none. |
| `FormatScanner.WriteText` | src/3rdparty/fmt/format.h:2876-2890 | The second pass over text without opening braces emits what the grammar emits for it. |
| `FormatScanner.ScanShort` | src/3rdparty/fmt/format.h:2858-2875 | The simple loop emits the trace of nonempty texts and fields that the grammar gives, and fails exactly there, for strings of any length. |
| `FormatScanner.ScanLong` | src/3rdparty/fmt/format.h:2876-2901 | The two-pass scan emits the same trace and fails on the same inputs, for strings of any length. |
| `FormatScanner.ParseFormatString` | src/3rdparty/fmt/format.h:2853-2902 | So the choice at 32 characters does not change the meaning of any format string. |
| `FormatRendering.IdParses` | src/3rdparty/fmt/format.h:2585-2616 | Every argument id that was written is parsed as that id. |
| `FormatRendering.SpecsParse` | src/3rdparty/fmt/format.h:2744-2793 | Every specification that was written (fill, alignment, sign, #, 0, width, precision, type, nested ids) is parsed as that specification. |
| `FormatRendering.FieldParses` | src/3rdparty/fmt/format.h:2826-2851 | Every replacement field that was written is parsed as that field. |
| `FormatRendering.ParseRendered` | src/3rdparty/fmt/format.h:2853-2902 | Parsing a format string written for any sequence of texts and fields gives that sequence, up to how texts are split at escaped braces. |
| `FormatRendering.EscapedIsLiteral` | src/3rdparty/fmt/format.h:2853-2902 | Doubling every brace of any text gives a format string without fields that stands for the text. |
| `FormatSoundness.FieldSound` | src/3rdparty/fmt/format.h:2826-2851 | Every field that is accepted is written as the grammar has it: an id, and a fill of one code point with its alignment, sign, #, 0, width, precision and at most one type character. |
| `FormatSoundness.AcceptedIsWritten` | src/3rdparty/fmt/format.h:2853-2902 | Every format string that is accepted is, piece by piece, a writing of its events: texts without braces, escaped braces, and fields; so nothing else is accepted. |
| `Formatting.FormatHandler.OnArgId` | src/3rdparty/fmt/format.h:2936-2942 | Ids are resolved by automatic and manual numbering, which cannot be mixed, or by name, and must name an argument. |
| `Formatting.FormatHandler.OnText` | src/3rdparty/fmt/format.h:2928-2934 | Text is printed as it is. |
| `Formatting.FormatHandler.OnCount` | src/3rdparty/fmt/format.h:2432-2472 | A dynamic width or precision takes the next id; it is not negative, of an integer type, and at most INT_MAX once cut to 64 bits, so that 2^64 + 5 is taken as 5. |
| `Formatting.CountOfArgument` | src/3rdparty/fmt/format.h:2277-2316 | A width or precision from an integer argument is its value, or refused when that is no nonnegative int, if and only if the value is at most INT_MAX or its low 64 bits exceed INT_MAX. |
| `Formatting.CutCount` | src/3rdparty/fmt/format.h:2434-2440 | The 128-bit value 2^64 + 5 is taken as 5. |
| `Formatting.FormatHandler.SetCheckedFlags` | src/3rdparty/fmt/format.h:2386-2431 | Fill, alignment, sign, # and 0 are set in order, each refused at once for an unsuitable argument type. |
| `Formatting.FormatHandler.SetSpecs` | src/3rdparty/fmt/format.h:2957-2962 | Flags, width and precision are set in order; ids are taken in that order too, and a precision is refused for integral and pointer arguments. |
| `Formatting.FormatHandler.OnReplacementField` | src/3rdparty/fmt/format.h:2944-2950 | A plain field prints its argument by the default printer, or fails. |
| `Formatting.FormatHandler.OnFormatSpecs` | src/3rdparty/fmt/format.h:2952-2968 | A field with a specification prints its argument by the checked and resolved specification, or fails. |
| `Formatting.OneField` | src/3rdparty/fmt/format.h:3504-3510 | The string {} is a single automatic field, so the shortcut for it is the general path. |
| `Formatting.VFormatTo` | src/3rdparty/fmt/format.h:3499-3515 | The interpreter, with its shortcut, prints what the events of the format string mean for the arguments. |
| `Numbering.AskedInOrder` | src/3rdparty/fmt/core.h:585-588 | When all ids are automatic, the one asked for as number i, a field before its width and that before its precision, refers to argument i. |
| `Numbering.FirstOfName` | src/3rdparty/fmt/core.h:1931-1940 | The argument of a name is the first one given with it. |
| `Numbering.ResolveFinds` | src/3rdparty/fmt/core.h:585-598 | In every numbering state an id finds the argument that its number or name stands for, and is refused exactly when automatic ids and indices are mixed. |
| `Numbering.SpecsFind` | src/3rdparty/fmt/format.h:2957-2962 | The printer gets the width, precision, type, alignment, sign, # and fill that are written, dynamic ones from the arguments themselves, and only where they suit the type of the argument. |
| `Numbering.EventsMean` | src/3rdparty/fmt/format.h:2917-2970 | From every numbering state on, interpreting events prints what the numbered events print, in order, or fails. |
| `Numbering.InterpretMeans` | src/3rdparty/fmt/format.h:3499-3515 | A format string prints its texts and, for each field, the argument that its numbered id stands for; it is refused exactly when it is in error, mixes automatic ids and indices in whatever order, or a field fails. |
| `Compile.CountAgrees` | src/3rdparty/fmt/format.h:3095-3109 | Resolving a width or precision at once, or keeping a reference and resolving it when running, is the same. |
| `Compile.FlagChecksAgree` | src/3rdparty/fmt/compile.h:252-257 | Checking a specification part by part while parsing, or all of it before printing, refuses the same. |
| `Compile.SpecsAgree` | src/3rdparty/fmt/compile.h:246-257 | Compiling a specification and running it gives exactly what interpreting it gives, for every argument type. |
| `Compile.EventAgrees` | src/3rdparty/fmt/compile.h:142-182 | One event, compiled to a part and run, prints what interpreting it prints if its argument is there. |
| `Compile.CompilationPreservesMeaning` | src/3rdparty/fmt/compile.h:204-269 | For every format string and all arguments, interpreting equals compiling and running if the arguments of all fields are there, and fails otherwise. |
| `Compile.MissingArgumentIsSilent` | src/3rdparty/fmt/compile.h:230-238 | Without the argument, {} fails when interpreted but prints nothing when compiled. |
| `Compile.FormatStringCompiler.OnText` | src/3rdparty/fmt/compile.h:142-145 | Text becomes a text part. |
| `Compile.FormatStringCompiler.MakeArgRef` | src/3rdparty/fmt/format.h:2565-2579 | A reference to an argument by the numbering rules. |
| `Compile.FormatStringCompiler.OnCount` | src/3rdparty/fmt/format.h:2550-2556 | A dynamic width or precision is kept as a reference. |
| `Compile.FormatStringCompiler.OnArgId` | src/3rdparty/fmt/compile.h:147-161 | An id becomes an index or a name by the numbering rules, and is kept for the field it belongs to. |
| `Compile.FormatStringCompiler.OnReplacementField` | src/3rdparty/fmt/compile.h:163-166 | A plain field becomes one part that refers to its argument. |
| `Compile.FormatStringCompiler.OnFormatSpecs` | src/3rdparty/fmt/compile.h:168-182 | A field with a specification becomes one part with its specification and references. |
| `Compile.CompileFormatString` | src/3rdparty/fmt/compile.h:185-192 | The parts are those of the events, in order, or the string is refused. |
| `Compile.VFormatCompiled` | src/3rdparty/fmt/compile.h:204-269 | The loop over parts prints them one after another and stops at the first failure. |
| `Compile.FormatCompiled` | src/3rdparty/fmt/compile.h:185-269 | Compile, then run: the output of the interpreter. |
| `PartCounter.Counter.OnText` | src/3rdparty/fmt/compile.h:87-89 | A text that is not empty is one part. |
| `PartCounter.Counter.OnArgId` | src/3rdparty/fmt/compile.h:91-95 | An argument id is one part. |
| `PartCounter.Counter.OnFormatSpecs` | src/3rdparty/fmt/compile.h:99-112 | The loop finds the closing brace that matches, or the end. |
| `PartCounter.Counter.SkipNumber` | src/3rdparty/fmt/format.h:2234-2252 | Reading an id stops after its digits, or before the first one that there is no room for. |
| `PartCounter.Counter.ParseArgId` | src/3rdparty/fmt/format.h:2585-2616 | An id is one part; without an id, or for a number that is not closed, no part is counted and the scan goes on. |
| `PartCounter.Counter.ParseReplacementField` | src/3rdparty/fmt/format.h:2826-2851 | At an error the scan of the string ends, with the part of the id counted before. |
| `PartCounter.Counter.ScanShort` | src/3rdparty/fmt/format.h:2858-2875 | The simple loop counts the texts and fields up to an unmatched closing brace, for every string. |
| `PartCounter.Counter.WriteText` | src/3rdparty/fmt/format.h:2876-2890 | An unmatched closing brace ends the stretch before the next opening one, and no more. |
| `PartCounter.Counter.ScanLong` | src/3rdparty/fmt/format.h:2892-2901 | The two-pass scan counts what is counted when the scan goes on at the next opening brace after an unmatched closing one, for every string. |
| `PartCounter.CountParts` | src/3rdparty/fmt/compile.h:117-123 | The count is that of the strategy chosen at 32 characters. |
| `PartCounter.SpecsMatch` | src/3rdparty/fmt/compile.h:99-112 | Every specification closes the braces that it opens, except one when its type is an opening brace. |
| `PartCounter.FieldScans` | src/3rdparty/fmt/format.h:2826-2851 | A field that parses is one part, and the counter goes on where the parser does, unless the type is an opening brace. |
| `PartCounter.Skipped` | src/3rdparty/fmt/compile.h:99-112 | Looking for a brace that stays open passes over at least one text or field that is never counted again, in either strategy. |
| `PartCounter.CountsParts` | src/3rdparty/fmt/compile.h:84-123 | For every format string that compiles, the count made in advance never exceeds the number of parts, and is that number if and only if no field but the last event has an opening brace as its type. |
| `PartCounter.BraceKindMiscounts` | src/3rdparty/fmt/compile.h:99-112 | A format string with such a type that compiles to two parts but is counted as one. |
| `Mining.StepKeeps` | src/core/Miner.cpp:131-155 | What every single event keeps of the four invariants, and exactly which step breaks the fourth, the one with stops. |
| `Mining.ReasonsCounted` | src/core/Miner.cpp:633-650 | In every run auto_pause is the number of true flags among battery_power and user_active, and battery_power implies not enabled. |
| `Mining.UnpausedMeansRunning` | src/core/Miner.cpp:131-155 | In every run without a stop an unpaused nonce state implies active and enabled. |
| `Mining.Safety` | src/core/Miner.cpp:353-365 | Both hold from the start of the program in every run without a stop. |
| `Mining.DiardiPauses` | src/net/Network.cpp:280-286 | After a job with height > 820102 and height % 4 = 0 nothing unpauses the miner until a job is passed on to it. |
| `Mining.JobStarts` | src/core/Miner.cpp:131-155 | A job that is passed on and can be worked on makes the miner active and unpauses it exactly when it is enabled, whatever came before, with new sequence numbers and the job and its index recorded. |
| `Mining.JobWaits` | src/core/Miner.cpp:534-573 | A job whose dataset has to be made first makes the miner active and leaves the rest to the ready dataset. |
| `Mining.DatasetStarts` | src/core/Miner.cpp:699-707 | A ready dataset unpauses an active miner exactly when it is enabled. |
| `Mining.EnablingStarts` | src/core/Miner.cpp:499-531 | Enabling is refused on battery power alone, and what takes effect on an active miner starts or pauses it. |
| `Mining.PausesAndStops` | src/net/Network.cpp:266-294 | Which events make the miner idle, stop it, or change nothing, with the heights in numbers. |
| `Mining.NoncesAreCounted` | src/crypto/common/Nonce.cpp:36-67 | Taken nonces are added to their counter alone, and exhaustion pauses. |
| `Mining.TickReads` | src/core/Miner.cpp:602-655 | The timer reads the two reasons to pause; a change enables the miner exactly when none is left, and starts or pauses an active one. |
| `Mining.BatteryIsReadFirst` | src/core/Miner.cpp:633-650 | The battery is read before the user: when one reason goes and the other comes, the miner is enabled for a moment. |
| `Mining.PausedExactlyWhenHeld` | src/core/Miner.cpp:131-155 | In every run without a stop the miner is paused exactly when it is inactive, disabled, or its nonces were exhausted or it was inactive and no job change, ready dataset or enabling has come since. |
| `Mining.PausedFromTheStart` | src/core/Miner.cpp:353-365 | So from the start of the program. |
| `Mining.OnlyReadyDatasetRevives` | src/core/Miner.cpp:699-707 | With stops, the only step after which an unpaused miner neither runs nor was told to end is a dataset becoming ready while it is enabled, inactive and unpaused. |
| `Mining.RevivedRun` | src/core/Miner.cpp:576-583 | A run from the start in which this happens. |
| `Mining.EveryRunWithStops` | src/core/Miner.cpp:576-583 | Over every run, stops included: in each state an unpaused miner runs or was told to end, exactly when no step of the run revives a stopped miner. |
| `Mining.SafetyWithStops` | src/core/Miner.cpp:353-365 | So from the start of the program in every run without such a dataset event, however often the miner is stopped. |
| `Mining.NoncesAtJob` | src/core/Miner.cpp:552-559 | A job change starts the nonces of its index again, except when going back from a donation job to the same user job. |
| `Mining.NoncesAcrossDonation` | src/core/Miner.cpp:552-559 | Over a whole donation, from any state on (a donation job, anything but user jobs, a user job): the counter of the user goes on with the same job, increased by exactly the nonces taken from it; with another job it starts again. |
| `Miner.Nonce.Stop` | src/crypto/common/Nonce.cpp:70-77 | Stopping unpauses and zeroes the sequence numbers. |
| `Miner.Nonce.constructor` | src/crypto/common/Nonce.cpp:31-33 | The nonce state starts paused, with sequence number 1 and counters 0. |
| `Miner.Nonce.Touch` | src/crypto/common/Nonce.cpp:80-85 | A new sequence number for the workers. |
| `Miner.Miner.constructor` | src/core/Miner.cpp:353-365 | The fields and the nonce state as the program starts. |
| `Miner.Miner.HandleJobChange` | src/core/Miner.cpp:131-155 | The new state after a job change, for every state. |
| `Miner.Miner.Pause` | src/core/Miner.cpp:490-496 | Inactive and paused, with new sequence numbers. |
| `Miner.Miner.SetEnabled` | src/core/Miner.cpp:499-531 | Enabling is refused on battery power, and the nonces follow only while active. |
| `Miner.Miner.SetJob` | src/core/Miner.cpp:534-573 | The new state after a job, with the stop for a dataset that is not ready. |
| `Miner.Miner.Stop` | src/core/Miner.cpp:576-583 | Stopping unpauses the nonces and zeroes the sequence numbers. |
| `Miner.Miner.AutoPause` | src/core/Miner.cpp:633-642 | A changed reason to pause is recorded, counted, and enables or disables the miner. |
| `Miner.Miner.OnTimer` | src/core/Miner.cpp:602-655 | Both reasons are looked at in order, then a finished backend stops the miner. |
| `Miner.Miner.OnDatasetReady` | src/core/Miner.cpp:699-707 | A ready dataset is a job change. |
| `Miner.Network.SetJob` | src/net/Network.cpp:266-294 | A job is passed on, or pauses the miner on a Diardi block. |
| `Miner.Network.OnJob` | src/net/Network.cpp:167-174 | While donating, jobs of other pools are ignored. |
| `Miner.Network.OnPause` | src/net/Network.cpp:212-224 | Without an active pool the miner is paused. |
| `GpuResults.CheckHash` | src/net/JobResults.cpp:103-112 | A hash below the target becomes one result, any other one error. |
| `GpuResults.GetResults` | src/net/JobResults.cpp:115-195 | Exactly the nonces that meet the target become results, in order, and all others errors, in every algorithm family; each result has the job, the nonce (for KawPow the full one) and the hash of that nonce, below the target. |
| `GpuResults.EveryNonceOnce` | src/net/JobResults.cpp:115-195 | Every nonce of a bundle is answered or failed exactly as often as it was reported; those answered are below the target, those failed are not, unless the bundle is not checked at all, when all fail. |
| `GpuResults.GoodInOrder` | src/net/JobResults.cpp:115-195 | The nonces that meet the target keep their order. |
| `GpuResults.ResultsAnswer` | src/net/JobResults.cpp:103-106 | The results answer the answered nonces one by one: job, nonce, hash, target. |
| `GpuResults.ResultsAndFailures` | src/net/JobResults.cpp:115-195 | The nonces of the results and those that failed are the ones reported, each as often. |
| `GpuResults.BundleReports` | src/net/JobResults.cpp:115-195 | The same for what is reported to a pool, full nonces included. |
| `JobQueue.RunConserves` | src/net/JobResults.cpp:214-274 | In every interleaving: delivered, in-flight and queued direct results are those submitted, in order; every bundle is in exactly one place; no wake-up is lost. |
| `JobQueue.StepKeepsWakeUp` | src/net/JobResults.cpp:214-251 | Whoever waits in a list will be taken: a wake-up is pending or the callback has not yet taken the lists. |
| `JobQueue.QuietMeansDelivered` | src/net/JobResults.cpp:240-274 | When nothing is left to do, everything submitted was delivered: direct results in order, every bundle once; every result of a bundle answers a nonce of a checked bundle with its job, and results and failures are together all nonces reported. |
| `JobQueue.StepWearsDown` | src/net/JobResults.cpp:240-274 | Every event but a submission changes nothing or lowers a bound on what is outstanding. |
| `JobQueue.CanGoOn` | src/net/JobResults.cpp:240-274 | While something is outstanding, some event other than a submission changes something. |
| `JobQueue.RunsEnd` | src/net/JobResults.cpp:240-274 | However the loop and the workers interleave, without submissions only so many events can change something. |
| `JobQueue.BecomesQuiet` | src/net/JobResults.cpp:240-274 | From every state a continuation without submissions leaves nothing to do. |
| `JobQueue.EverythingCanBeDelivered` | src/net/JobResults.cpp:214-274 | After every run some continuation without submissions makes the queue quiet, with everything submitted delivered. |
| `JobResults.CallbackIsRun` | src/net/JobResults.cpp:240-274 | The callback as written is a run of its steps. |
| `JobResults.JobResultsPrivate.constructor` | src/net/JobResults.cpp:203-208 | The queue starts empty. |
| `JobResults.JobResultsPrivate.Submit` | src/net/JobResults.cpp:214-220 | A result is queued and the loop woken. |
| `JobResults.JobResultsPrivate.SubmitBundle` | src/net/JobResults.cpp:224-230 | The first count nonces are copied into a bundle, queued, and the loop woken. |
| `JobResults.JobResultsPrivate.OnAsync` | src/net/JobResults.cpp:240-260 | Both lists are taken, the results passed on one by one, and the bundles handed to a worker. |
| `JobResults.JobResultsPrivate.RunWork` | src/net/JobResults.cpp:260-267 | The worker checks every bundle in order. |
| `JobResults.JobResultsPrivate.AfterWork` | src/net/JobResults.cpp:268-277 | What the worker found is passed on in order and the work forgotten. |

## Left out

- Dragon4.FallbackFormat: requires f * 2^e / 10^exp10 to be below ten, which `FormatFloat.FirstDigit` proves of the exponent that it is handed; exp10 below 2^30 in size, and not negative when e is not.
- Dragon4.SetUp: significand, exponent and the closer-predecessor flag are parameters; taking a double apart is not part of this model.
- The shortest mode of `fallback_format` (negative digit count), which `format_float` never asks for.
- BigintModel.Bigint.DivModAssign: the quotient has to fit an int, and a zero dividend must not be stored past the divisor.
- BigintModel.Bigint.Square: the storage is an unbounded sequence, not 32 inline words that spill to the heap; the same holds for all of `Bigint`, and exponents are unbounded naturals.
- Grisu.GenerateDigits: the starting error is 1, the only one `format_float` uses, and the buffer has room for 32 characters.
- FormatFloat.FormatFloat: the scaled significand is a parameter whose error is below one unit, as `ScaledByPower` proves of the product with a cached power; that the entries of the table of cached powers are within half a unit, and which one is chosen, is not part of this model.
- FormatFloat.Write: the decimal point is none of the characters from colon to D, which can stand in place of a digit; how a number is laid out is stated for correctly rounded digits and precisions up to 767; sign, padding to a width, hexadecimal notation and locale grouping are left out.
- The shortest mode, `snprintf` fallbacks and hexadecimal floating point in `format_float`.
- Dragonbox `to_decimal` beyond the arithmetic helpers listed above: its table of powers of ten and recovery errors.
- TrailingZeros.RemoveTrailingZeros64: the chain of seven unrolled steps is a loop of at most seven.
- DigitCount.CountDigits: the hardware count of leading zeros is the index of the highest set bit; the 32-bit overload, which uses the same table, and the forms for other radixes are not modelled.
- FloatText.WriteFloat: exponents of the scientific layout stay below 10000 in size, as the original asserts; locale grouping is left out.
- Base32.Encode: the signed, never masked buffer is a word modulo 2^32; only its low twelve bits are ever looked at.
- Utf.Utf8ToUtf16.Transcode: wchar_t is a 16-bit unit and the exception a false result; on other platforms the units are wider.
- Buffers.Buffer.Append: for a buffer of fewer than 256 characters requires that the text fits; otherwise the loop of the original does not end, as `AppendEnds` states.
- Buffers.Buffer.Perform: is stated for buffers of 256 characters; only `vformat_to_n` makes smaller ones.
- Buffers: `fixed_buffer_traits`, raw-pointer and container buffers, and memory buffers that grow.
- FormatScanner.ParseFormatString: the parser returns the events that it would report to a handler, and an error ends it, as with the error handler that throws; the handler that goes on after errors is in `PartCounter`.
- FormatRendering.ParseRendered: a type character that is also an alignment, sign, flag, digit, point or brace is not written, since it would be read as that; a fill is written only with an alignment.
- Formatting.VFormatTo: arguments of custom types, whose formatters parse on their own, and locales are left out; one function parameter stands for the printer of an argument with or without a specification.
- Compile.VFormatCompiled: a missing argument prints nothing, as in a build without assertions; the compile-time recursion that turns format strings into types is left out.
- PartCounter.Counter.ScanLong: the counter is an unbounded natural; the unsigned of the original would wrap at 2^32 parts.
- Mining.StepKeeps: readiness of datasets, battery and user state, activity of pools and donation, and what a backend reports are parts of the events; backends, hashing, logging and the API are not part of this model.
- Miner.Nonce.Stop: the sequence numbers of the three backends are one number; workers that stop or touch their own are not modelled, nor the wrap-around at 2^64, and taking nonces is one event that may pause.
- Miner.Miner.OnTimer: the health and hashrate reports.
- The strategies behind `Network`, the routing of results to them, and configuration changes.
- GpuResults.GetResults: hash functions and the nonce inside a blob are parameters, and every algorithm family is compiled in; for KawPow the original stores the byte-reversed hash with the header and mix hashes, the model the one digest.
- JobQueue.RunConserves: a step is what happens under one hold of the mutex or one call of the event loop; deleting the handler while work is out is not modelled.
