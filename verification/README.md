# Exponentiate: a verified model of the digit-vector exponentiation engine

The system raises a base to an exponent that it derives from the base itself: the
exponent is the base with its decimal digits read backwards (base 120 gives exponent
21). Both numbers are held twice, as a 32-bit value and as a vector of decimal digits,
least significant first (`input_params`). The power is computed on digit vectors only:

- schoolbook long multiplication (`multiplication_operation`): one shifted
  partial-product row per digit of the shorter operand, with a carry inside each row;
- a column-by-column sum of those rows (`sum_rows`);
- a table of repeated squares `a, a^2, a^4, ...` (`intermediate_mult_vals`);
- a fold of one table entry per set bit of the exponent into an accumulator that
  starts at 1. The set bits are found largest first by `greatest_base_two_exponent`.

The model has six modules:

- `Digits` (digits.dfy): digit vectors, the ghost value `Val(s) = sum of s[i] * 10^i`,
  `DigitsOf`, reversal.
- `PowersOfTwo` (powers.dfy): `Pow2`, `Log2` (the top set bit), the greedy decomposition
  `Bits` of an exponent, and integer powers `Pow`.
- `LongMultiplication` (multiplication.dfy): the partial-product rows and both column
  sums as prefix-recursive specification functions (the digits and carry after `j`
  steps), together with the value lemmas about them. It has two column sums: the one
  the code performs, and a corrected one.
- `SquareLadder` (ladder.dfy): the doubling table and the fold, over any multiplication,
  with their value lemmas.
- `ColumnOverflow` (overflow.dfy): the square of eleven nines worked column by column, where the column sum as written loses a carry.
- `Exponent` (exponent.dfy): `InputParams` and the class `ExponentObj`, whose fields
  are those of the source class. Its constructor and `PerformExponentiation` update
  them, and the source's IN/OUT helper routines are static methods with the source's
  loops. Each method is proved against the specification functions above.

Byte and 32-bit storage is written out where it matters:

- the row total of `multiplication_operation` is taken modulo 256;
- the numeric reversal wraps modulo 2^32;
- the reversal's step count is held in a byte.

`fmod` and `pow` act on small integers and are exact there, so they become `%` and
`Pow2`.

## Model

| member | source | states |
|---|---|---|
| Exponent.ExponentObj.constructor | exponentiate/src/ExponentObj.cpp:28-47 | For base 0 only the exponent 0 is set. Otherwise a holds the base's digits and the base, b holds the reversed digit vector and the 32-bit numeric reversal, and the largest multiplication factor is the top bit of b. val(a.asVect) = a.inputVal, and val(b.asVect) = b.inputVal whenever the reversed digits fit in 32 bits. The object is then Ready for one exponentiation. |
| Exponent.ExponentObj.DeriveOperands | exponentiate/src/ExponentObj.h:46-51 | The exponent is derived from the base alone: the digits of the base, their reversal, and the floor of log2 of the reversed value. |
| Exponent.ExponentObj.DeriveFromNonzero | exponentiate/src/ExponentObj.cpp:36-46 | For a nonzero base, a holds its digits and the base, b holds the reversed digits and the reversed exponent, and the factor is the top bit of that exponent. |
| Exponent.ExponentObj.PerformExponentiation | exponentiate/src/ExponentObj.cpp:50-107 | a, b and the factor are unchanged. The table is the doubling ladder up to the factor (empty for exponent 0). state is the base for exponents 0 and 1, and otherwise the accumulator after the fold. The bits applied are exactly the greedy decomposition of b. Whenever every multiplication is exact, the reported digits spell a^b (1 for exponent 0). In particular they spell a^b whenever every multiplication performed has columns that fit, i.e. every column total plus its incoming carry is at most 99. |
| Exponent.ExponentObj.SquareAndMultiply | exponentiate/src/ExponentObj.cpp:57-107 | For a positive exponent: the table is built up to the top bit. The accumulator starts at [1] and is left at [1] when the top bit is bit 0 (state stays the base). Otherwise the accumulator is the fold and becomes the state. |
| Exponent.ExponentObj.BuildTable | exponentiate/src/ExponentObj.cpp:61-72 | The table has exactly factor + 1 entries: entry 0 is a and entry i is entry i - 1 multiplied by itself. Every entry is a digit vector. |
| Exponent.ExponentObj.AppendSquare | exponentiate/src/ExponentObj.cpp:63-72 | One pass of the table loop squares the last entry with multiplication_operation and appends it. The prefix property of the table is kept. |
| Exponent.ExponentObj.FoldBits | exponentiate/src/ExponentObj.cpp:79-105 | The exponent loop multiplies the accumulator by one table entry per bit of the greedy decomposition, in that order. The result is the fold of the table into the starting accumulator. The positions used are exactly Bits(b), and their powers of two add up to b. |
| Exponent.ExponentObj.FoldStep | exponentiate/src/ExponentObj.cpp:86-100 | One pass finds the top bit e of what is left (e is inside the table) and clears it, and the remainder strictly decreases. prev / 2^e is 1, so the accumulator is multiplied by table[e] exactly once. |
| Exponent.FoldAdvance | exponentiate/src/ExponentObj.cpp:86-105 | One pass keeps the loop invariant: the bits applied, followed by the decomposition of what is left, make up the decomposition of b, and folding what is left gives the whole fold. |
| Exponent.TableAdvance | exponentiate/src/ExponentObj.cpp:63-72 | Appending the square of entry n extends a valid table of n + 1 entries to a valid table of n + 2 entries, all digit vectors. |
| Exponent.ReportedPower | exponentiate/src/ExponentObj.cpp:106-130 | The value reported for a positive exponent is the state, and it spells base^exponent when the multiplications are exact. For exponent 0 the reported 1 is base^0. |
| Exponent.ExponentObj.VectorizeIntoDigits | exponentiate/src/ExponentObj.cpp:142-153 | The digits of inputVal are appended least significant first; input 0 appends nothing. The earlier elements and inputVal are kept. |
| Digits.DigitsOfSpells | exponentiate/src/ExponentObj.cpp:147-152 | The digits appended are each in 0..9 and spell the input. They are empty exactly for 0, and have no leading zero. |
| Digits.DigitsOfLowTwo | exponentiate/src/ExponentObj.cpp:251-259 | A value of at least 10 has at least two digits; digit 0 is its units and digit 1 its tens. |
| Exponent.ExponentObj.ReverseTheDigits | exponentiate/src/ExponentObj.cpp:155-177 | The first (len(base) - 1) mod 256 + 1 digits of base are appended in reverse order. The number becomes the 32-bit wrapping reversal over the same number of steps. |
| Exponent.ReversalAgrees | exponentiate/src/ExponentObj.cpp:160-176 | When the reversed digits fit in 32 bits, the numeric reversal equals the value of the reversed digit vector, and a nonzero base gives an exponent of at least 1. |
| Exponent.ReversalOf120 | exponentiate/src/ExponentObj.cpp:160-176 | Base 120 reverses to the digit vector [1, 2, 0] and to the number 21, and the two agree. |
| Exponent.ReverseValueSpells | exponentiate/src/ExponentObj.cpp:168-174 | The unbounded numeric reversal of the k low digits spells those digits reversed. |
| Exponent.ReverseSumNoWrap | exponentiate/src/ExponentObj.cpp:168-174 | The 32-bit reversal equals the unbounded one whenever the latter fits in 32 bits. |
| Digits.ReversedDigits | exponentiate/src/ExponentObj.cpp:161-165 | Reversing a digit vector keeps every element a digit. |
| Exponent.BaseDigits | exponentiate/src/ExponentObj.cpp:38-40 | A nonzero 32-bit base has 1 to 10 digits, so the byte-held step count of the reversal is exact and covers every digit. |
| Exponent.ExponentObj.GreatestBaseTwoExponent | exponentiate/src/ExponentObj.cpp:179-200 | For 1 <= v < 2^16 it gives e with 2^e <= v < 2^(e+1) (the largest power not above v, so 8 gives 3) and replaces v by v - 2^e < 2^e. For v >= 2^16 both outputs are left unchanged. |
| PowersOfTwo.Log2Unique | exponentiate/src/ExponentObj.h:63-72 | The exponent is determined by 2^e <= v < 2^(e+1): no other e satisfies it. |
| Exponent.SearchMissesDomain | exponentiate/src/ExponentObj.cpp:184-186 | Base 99999 reverses to 99999, which lies at or above the search's last power 2^16 and below 2^17. |
| Exponent.ExponentObj.GreatestBaseTwoExponentCorrected | exponentiate/src/ExponentObj.cpp:184-186 | The search up to 2^17 gives the top bit and the remainder for every 1 <= v < 2^17. |
| Exponent.DomainFitsCorrectedSearch | exponentiate/src/ExponentObj.cpp:184-185 | Every base of at most 99999 gives an exponent below 100000 < 2^17. |
| Exponent.ExponentObj.MultiplicationOperation | exponentiate/src/ExponentObj.cpp:202-285 | out's digits become the product as written of the two operands, and out's number is kept. The operands are taken by value and are unchanged, so out may be one of them. |
| Exponent.ExponentObj.PartialProducts | exponentiate/src/ExponentObj.cpp:221-276 | One row per digit of in1; each row's recorded length is its own length. The width passed on is the length of the last row. |
| Exponent.ExponentObj.MultiplyRow | exponentiate/src/ExponentObj.cpp:224-271 | The row is i zeros, then d times each digit of in2 plus the carry, held in a byte and emitted by the shared emission step. |
| LongMultiplication.ShortOperandFits | exponentiate/src/ExponentObj.cpp:207-212 | The shorter operand (the second on a tie) drives the rows. When it has at most ten digits, every column total is at most 90, so every column with its carry fits. |
| LongMultiplication.RowTotalNoWrap | exponentiate/src/ExponentObj.cpp:238-239 | For digits and a carry of at most 8, the byte does not wrap and the total is at most 89. |
| LongMultiplication.RowUpToBounds | exponentiate/src/ExponentObj.cpp:236-270 | Inside a row the carry stays at most 8. A row in progress has shift + j digits, one more after the final two-digit flush. |
| LongMultiplication.RowUpToDigits | exponentiate/src/ExponentObj.cpp:229-270 | Whatever the operand bytes, a row holds only digits and starts with its shift zeros. |
| LongMultiplication.RowUpToValue | exponentiate/src/ExponentObj.cpp:236-270 | The digits plus the pending carry of a row in progress spell d * val(ys[..j]) * 10^shift. |
| LongMultiplication.RowValue | exponentiate/src/ExponentObj.cpp:221-271 | Row i is i zeros followed by the digits of in1[i] * val(in2), all digits. Its length is i + abs(in2) or one more. |
| LongMultiplication.RowsFacts | exponentiate/src/ExponentObj.cpp:221-276 | Every row of a multiplication is a digit vector worth xs[i] * val(ys) * 10^i, of length i + abs(ys) or one more. |
| LongMultiplication.RowsSummable | exponentiate/src/ExponentObj.cpp:271-284 | Whatever the operand bytes, the rows handed to sum_rows are digits and their recorded lengths are within the rows. |
| LongMultiplication.LastRowLongest | exponentiate/src/ExponentObj.cpp:283-284 | The width passed to sum_rows (the last row's length) is at least every row's length and at most the two operand lengths together. |
| LongMultiplication.ColumnsFitUpToAll | exponentiate/src/ExponentObj.cpp:295-326 | The columns fit after j columns exactly when each of the first j columns, with the carry that reaches it, totals at most 99. |
| LongMultiplication.ColumnsAtMost90Fit | exponentiate/src/ExponentObj.cpp:307-326 | Column totals of at most 90 always fit: the incoming carry is a digit, so total plus carry stays at most 99. |
| LongMultiplication.ProductLength | exponentiate/src/ExponentObj.cpp:202-285 | The product as written of two digit vectors has at most abs(x) + abs(y) + 1 digits. |
| LongMultiplication.SumRowsPrefix | exponentiate/src/ExponentObj.cpp:295-336 | sum_rows only appends: the digits after j columns are a prefix of the digits after any later column. |
| LongMultiplication.SumRowsFullPrefix | exponentiate/src/ExponentObj.cpp:295-336 | The corrected column sum also only appends: earlier digits are a prefix of later ones. |
| LongMultiplication.RowsTotal | exponentiate/src/ExponentObj.cpp:221-276 | The first k rows together are worth val(xs[..k]) * val(ys). |
| LongMultiplication.EmitShape | exponentiate/src/ExponentObj.cpp:311-335 | An emission step only appends digits and keeps the carry a digit; only the last position emits two. |
| LongMultiplication.EmitValue | exponentiate/src/ExponentObj.cpp:241-269 | For a total below 100 the emitted digits and carry spell the previous digits plus the total at the next position. |
| Exponent.ExponentObj.ColumnSum | exponentiate/src/ExponentObj.cpp:297-305 | The column total over the first n rows: a row adds its digit only where its recorded length reaches the column, and 0 beyond it. |
| Exponent.ExponentObj.SumRows | exponentiate/src/ExponentObj.cpp:288-337 | output is cleared and receives the column sum as written. Its number is kept, and rows and lengths are passed by value. |
| LongMultiplication.SumRowsShape | exponentiate/src/ExponentObj.cpp:288-337 | Whatever the totals, sum_rows emits only digits, and its output has max_row_length or max_row_length + 1 digits. |
| LongMultiplication.SumRowsUpToBounds | exponentiate/src/ExponentObj.cpp:295-336 | The column carry stays a digit. After j columns there are j digits, one more after the last column's flush. |
| LongMultiplication.SumRowsUpToValue | exponentiate/src/ExponentObj.cpp:295-336 | While each of the first j columns, with the carry that reaches it, totals at most 99, the digits plus the carry after j columns spell the first j columns of the rows. |
| LongMultiplication.SumRowsValueStep | exponentiate/src/ExponentObj.cpp:297-326 | One column adds its total at its position to what the digits and carry spell. |
| LongMultiplication.RowsValueNextColumn | exponentiate/src/ExponentObj.cpp:299-305 | Taking one more column adds that column's total, rows shorter than the column contributing 0. |
| LongMultiplication.SumRowsExact | exponentiate/src/ExponentObj.cpp:288-337 | While every column with its incoming carry totals at most 99, the output is digits and spells the sum of the rows. |
| LongMultiplication.ProductCorrect | exponentiate/src/ExponentObj.cpp:202-285 | When every column of the rows, with its incoming carry, totals at most 99, the multiplication as written gives digits spelling val(x) * val(y). |
| LongMultiplication.ProductIsDigits | exponentiate/src/ExponentObj.cpp:202-285 | Whatever its column totals, the multiplication as written yields only digits. |
| LongMultiplication.ProductOfEmpty | exponentiate/src/ExponentObj.cpp:222-236 | An empty operand (the value 0) gives an empty result. |
| LongMultiplication.SumRowsDropsHundreds | exponentiate/src/ExponentObj.cpp:322-334 | Twelve one-digit rows of 9 sum to 108, but sum_rows as written outputs [8, 0] (value 8); the corrected sum outputs [8, 0, 1]. |
| LongMultiplication.EmitFullValue | exponentiate/src/ExponentObj.cpp:316-334 | With the whole carry kept, every emission step spells the previous digits plus the total, however large the total. |
| LongMultiplication.SumRowsFullUpToValue | exponentiate/src/ExponentObj.cpp:295-336 | With no bound on the columns, the corrected digits plus carry after j columns spell the first j columns. |
| LongMultiplication.SumRowsFullValueStep | exponentiate/src/ExponentObj.cpp:297-334 | One corrected column adds its total at its position, however large the total is. |
| LongMultiplication.SumRowsFullExact | exponentiate/src/ExponentObj.cpp:288-337 | The corrected column sum always gives digits spelling the sum of the rows. |
| LongMultiplication.EmitAgrees | exponentiate/src/ExponentObj.cpp:316-334 | Below 100 the emission as written and the corrected one produce the same digits and carry. |
| LongMultiplication.SumRowsAgree | exponentiate/src/ExponentObj.cpp:295-336 | While the columns fit, the column sum as written and the corrected one agree after every column. |
| LongMultiplication.SumRowsAgreeStep | exponentiate/src/ExponentObj.cpp:297-334 | Agreement before a column that fits gives agreement after it. |
| LongMultiplication.RowsSumFullCarry | exponentiate/src/ExponentObj.cpp:202-285 | Summing the rows of xs * ys with the whole carry spells val(xs) * val(ys). |
| LongMultiplication.ProductFullCarryCorrect | exponentiate/src/ExponentObj.cpp:202-285 | The corrected multiplication gives digits spelling val(x) * val(y) for all digit vectors. |
| LongMultiplication.ProductAgrees | exponentiate/src/ExponentObj.cpp:202-285 | While the columns fit, the multiplication as written equals the corrected one. |
| Exponent.ExponentObj.SumRowsCorrected | exponentiate/src/ExponentObj.cpp:316-335 | sum_rows with the whole carry kept, whose output is the corrected column sum. |
| Exponent.ExponentObj.EmitColumnFull | exponentiate/src/ExponentObj.cpp:311-335 | One corrected column: the units digit is appended, and the rest is carried or, in the last column, appended in full. |
| SquareLadder.Ladder | exponentiate/src/ExponentObj.cpp:61-72 | The doubling table up to k has k + 1 entries, and entry 0 is the base. |
| SquareLadder.LadderPrefix | exponentiate/src/ExponentObj.cpp:63-72 | A shorter table is a prefix of a longer one, so each squaring only appends. |
| SquareLadder.LadderValue | exponentiate/src/ExponentObj.h:40-42 | While the squarings are exact, entry i is a digit vector spelling a^(2^i); entry 0 is a itself. |
| SquareLadder.CombineStep | exponentiate/src/ExponentObj.cpp:89-104 | One pass of the fold: multiply by the entry at the top bit, then fold what is left. |
| SquareLadder.CombineValue | exponentiate/src/ExponentObj.cpp:86-105 | While the fold's multiplications are exact over a table of powers of A, the fold multiplies the accumulator by A^v. |
| SquareLadder.ExponentiateValue | exponentiate/src/ExponentObj.cpp:55-107 | While every multiplication is exact, the state spells val(a)^b for every exponent b >= 1. Exponent 1 leaves state = a. |
| SquareLadder.EngineAlwaysExact | exponentiate/src/ExponentObj.cpp:55-107 | A multiplication that is exact on all digit vectors makes every multiplication of the exponentiation exact. |
| SquareLadder.CorrectedExponentiation | exponentiate/src/ExponentObj.cpp:55-107 | With the corrected column sum, the state spells val(a)^b for every base and every exponent b >= 1. |
| SquareLadder.LadderStep | exponentiate/src/ExponentObj.cpp:63-72 | Entry i + 1 of the table is entry i multiplied by itself. |
| SquareLadder.CombineWithinExact | exponentiate/src/ExponentObj.cpp:86-105 | When the multiplication is exact on every pair the guard accepts, and the guard accepts every multiplication of the fold, the fold is exact. |
| SquareLadder.EngineWithinExact | exponentiate/src/ExponentObj.cpp:55-107 | When the multiplication is exact on every pair the guard accepts, and the guard accepts every squaring and every fold step, every multiplication of the exponentiation is exact. |
| SquareLadder.CombineShortTable | exponentiate/src/ExponentObj.cpp:86-105 | When the fold only meets table entries of at most ten digits, a guard accepting every short operand accepts each of its multiplications. |
| SquareLadder.CombineFromOne | exponentiate/src/ExponentObj.cpp:83-105 | The fold from [1] meets the top entry once, against the one-digit accumulator, and short entries after that, so the guard accepts all of it. |
| SquareLadder.ShortTableWithin | exponentiate/src/ExponentObj.cpp:55-107 | When every table entry below the top one has at most ten digits, a guard accepting short operands accepts every squaring and every fold step. |
| SquareLadder.LadderLength | exponentiate/src/ExponentObj.cpp:63-72 | When each multiplication gives at most abs(x) + abs(y) + 1 digits, entry i has fewer than (abs(a) + 1) * 2^i digits. |
| SquareLadder.SmallTableWithin | exponentiate/src/ExponentObj.cpp:55-107 | When the length bound keeps every entry below the top one within ten digits, a guard accepting short operands accepts every multiplication. |
| SquareLadder.SmallTableExact | exponentiate/src/ExponentObj.cpp:55-107 | When (abs(a) + 1) * 2^(k - 1) <= 11 for the top bit k of b, every multiplication as written fits and the state spells val(a)^b. |
| SquareLadder.ProductExactWhere | exponentiate/src/ExponentObj.cpp:202-285 | The multiplication as written keeps digit vectors digit vectors, and is exact on every pair whose columns fit. |
| SquareLadder.ProductLengthBound | exponentiate/src/ExponentObj.cpp:202-285 | The multiplication as written yields at most abs(x) + abs(y) + 1 digits. |
| SquareLadder.ProductAcceptsShort | exponentiate/src/ExponentObj.cpp:207-212 | Every product as written with an operand of at most ten digits has columns that fit. |
| SquareLadder.EngineFitsValue | exponentiate/src/ExponentObj.cpp:55-107 | When every multiplication as written has columns that fit, all are exact and the state spells val(a)^b. |
| SquareLadder.ShortTableExact | exponentiate/src/ExponentObj.cpp:55-107 | When the table entries below the top one have at most ten digits, every multiplication as written fits and the state spells val(a)^b. |
| PowersOfTwo.BitsDecompose | exponentiate/src/ExponentObj.cpp:86-105 | The bits the loop peels add up to the exponent and strictly decrease, and every bit is below the table size. |
| PowersOfTwo.AppliedSum | exponentiate/src/ExponentObj.cpp:86-105 | When the bits applied, followed by the decomposition of what is left, make up the decomposition of b, the powers applied plus what is left add up to b. |
| Exponent.OneDigitReversal | exponentiate/src/ExponentObj.cpp:155-177 | A one-digit base d has the digit vector [d] and reverses to the exponent d. |
| Exponent.OneDigitTable | exponentiate/src/ExponentObj.cpp:61-72 | For a one-digit base the top bit is at most 3, and the length bound keeps the entries below the top one within ten digits. |
| Exponent.OneDigitBaseExact | exponentiate/src/ExponentObj.cpp:50-107 | For a base d of one digit every multiplication as written fits, and the engine computes d^d exactly. |
| ColumnOverflow.NineRowAll | exponentiate/src/ExponentObj.cpp:221-271 | The row of digit 9 times eleven nines, shifted by i, is i zeros, then 1, ten 9s and 8. |
| ColumnOverflow.SquareRows | exponentiate/src/ExponentObj.cpp:207-284 | Squaring eleven nines builds eleven such rows, row i shifted by i, and passes the width 22. |
| ColumnOverflow.NineColumnTotal | exponentiate/src/ExponentObj.cpp:297-305 | In those rows, column j totals 1 + 9j for j up to 10, column 11 totals 98 and column 12 totals 89. |
| ColumnOverflow.LowColumns | exponentiate/src/ExponentObj.cpp:295-326 | After j <= 10 columns the sum as written holds 1 followed by zeros, and carries j - 1. |
| ColumnOverflow.LowColumnsFull | exponentiate/src/ExponentObj.cpp:295-326 | The corrected sum agrees on those first ten columns. |
| ColumnOverflow.HighColumns | exponentiate/src/ExponentObj.cpp:316-326 | Column 10 with its carry totals 100. The sum as written carries only the tens digit 0, and columns 11 and 12 emit 8 and 8. |
| ColumnOverflow.HighColumnsFull | exponentiate/src/ExponentObj.cpp:316-334 | The corrected sum carries 10 out of column 10, and columns 11 and 12 emit 8 and 9. |
| ColumnOverflow.SquareDigit12 | exponentiate/src/ExponentObj.cpp:316-334 | Digit 12 of the square of eleven nines is 8 as written and 9 with the whole carry kept. |
| ColumnOverflow.ElevenNinesSquared | exponentiate/src/ExponentObj.cpp:202-285 | The columns of 99999999999 squared do not fit. The product as written is not its square, while the corrected product is. |
| PowersOfTwo.BitsStep | exponentiate/src/ExponentObj.cpp:89-90 | Peeling the top bit extends the applied prefix by that bit and leaves the decomposition of the remainder. |
| PowersOfTwo.PowSquare | exponentiate/src/ExponentObj.cpp:66-68 | Squaring x^(2^i) gives x^(2^(i+1)). |

## Left out

- Console output: the printing at exponentiate/src/ExponentObj.cpp:117-130 and `print_digits` are not modelled. `Exponent.ExponentObj.Result` exposes the digits that would be printed (state, or 1 for exponent 0).
- exponentiate/src/ExponentObj_test.cpp is not part of this model. Its `main` reads standard input and validates with floating point, and its tests only print.
- `reserve` calls only set capacity. The commented-out naive loop and the unused `num_multiplications_left` have no effect.
- Exponent.ExponentObj.PerformExponentiation: it models one call on a freshly constructed object (`Ready`). A second call would append to `iter_state` and `intermediate_mult_vals` again.
- Exponent.ExponentObj.PerformExponentiation: the exponent loop's invariant is kept in two forms: `applied + Bits(exp_val) == Bits(b)` in the class, and `SumPow2(applied) + exp_val == b` in `FoldBits`, via `PowersOfTwo.AppliedSum`.
- Exponent.ExponentObj.PerformExponentiation: it proves the value a^b only when every multiplication is exact (`EngineExact`), or when every multiplication performed has columns that fit (`EngineWithin` with `ProductExact`). The column sum as written is not exact in general; see Findings. Inputs on which it still happens to be exact despite an overflowing column are not characterised.
- LongMultiplication.ShortOperandFits: an operand of at most ten digits is a sufficient condition for the columns to fit, not a necessary one. `LongMultiplication.ProductExact` itself is the condition the code needs.
- Exponent.ExponentObj.constructor: it requires the reversed exponent of a nonzero base to lie in 1 .. 2^16 - 1. Above that the source leaves `largest_mult_factor` unset and the exponent loop cannot make progress.
- Exponent.ExponentObj.constructor: it requires the base below 2^32, which the source's `u32` parameter guarantees.
- Fields the source leaves uninitialised (`a.input_val` and `largest_mult_factor` for base 0, numbers of scratch operands) are modelled as 0.
- Exponent.ExponentObj.GreatestBaseTwoExponent: it requires a value of at least 1. For 0 the source computes 2^(0-1) with an unsigned wrap; the engine never calls it with 0.
- Exponent.ExponentObj.SumRows: the column total `col_sum` is a `u32`. It is modelled as unbounded, because it stays far below 2^32 for any row count the engine can build.
- The carry after the last row digit or the last column is never read again. The specification functions set it to 0.
- Exponent.ExponentObj.FoldBits: the byte `exp_level` that is decremented after each pass is kept, but it does not affect the result, because each pass recomputes the bit.
- The class performs the code as written (`Product`, the search up to 2^16). The corrected column sum and search are modelled and proved beside it, and are not used by the class.

## Findings

| source | as written | input that shows it | evidently intended | confidence | as-written member | corrected member |
|---|---|---|---|---|---|---|
| exponentiate/src/ExponentObj.cpp:184-199 | The search tries only 2^0 .. 2^16 (`i < 17`). An exponent of 65536 or more finds no bit, and both outputs are left unset. | base 99999 gives exponent 99999 >= 2^16 | Search up to 2^17, covering every exponent below 100000 as the comment's 2^16 < 99999 < 2^17 says | high (not executed) | Exponent.ExponentObj.GreatestBaseTwoExponent, Exponent.SearchMissesDomain | Exponent.ExponentObj.GreatestBaseTwoExponentCorrected, Exponent.DomainFitsCorrectedSearch |
| exponentiate/src/ExponentObj.cpp:316-334 | The column carry keeps only the tens digit of column total plus carry, and the last column emits only two digits. A column reaching 100 or more loses its hundreds. | multiplication_operation on 99999999999 and itself: column 10 of its rows totals 91 and receives a carry of 9, so it reaches 100. The carry of 10 is lost, and digit 12 of the result is 8 instead of 9 (9999999998800000000001 instead of 9999999999800000000001). The engine squares table entries of this length once they pass ten digits. | Carry everything above the units digit and emit every digit in the last column, so that the product is exact | high (not executed) | LongMultiplication.SumRows, Exponent.ExponentObj.SumRows, ColumnOverflow.ElevenNinesSquared, ColumnOverflow.HighColumns, LongMultiplication.SumRowsDropsHundreds | LongMultiplication.SumRowsFull, Exponent.ExponentObj.SumRowsCorrected, LongMultiplication.ProductFullCarryCorrect, SquareLadder.CorrectedExponentiation |
