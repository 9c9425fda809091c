# Bit counting and integer reversal, verified

This project models two integer routines from a small C++ benchmark collection and proves their contracts in Dafny.

**Population count (`count_bits_bench.cpp`).** Several strategies count the set bits of a `uint32_t`:
- the reference loop `n &= n - 1`;
- lookups in precomputed count tables, with the input split into four byte lanes, into 11/11/10-bit lanes, or into two 16-bit halves;
- a full table with one entry per 32-bit value. It is filled by four workers over disjoint quarters of the index space and cached on first use.

A self-check compares every strategy with the reference and throws on a disagreement.

**Decimal reversal (`reverse_int_bench.cpp`).** Two solutions reverse the decimal digits of an `int` and return 0 when the result would not fit:
- the reference solution guards both ends of the range before each step;
- the second solution works only on non-positive values and negates around them, taking care never to negate `INT_MIN`.

Files:
- `bits.dfy` (module `Bits`): `uint32_t` as the naturals below 2^32, with `&`, `>>` and wrapping `+` written out on naturals, and `PopCount`, the specification every counting strategy is proved against.
- `count_bits.dfy` (module `CountBits`): the counting strategies, the table builders, the full-table class, and the self-check.
- `reverse_int.dfy` (module `ReverseInt`):
  - C++ truncating `/ 10` and `% 10`;
  - an independent specification of reversal via digit sequences (`Digits`, `Reverse`, `Value`), and `ReverseSpec`, which is the reversal if it fits in an `int` and 0 otherwise;
  - the two solutions, proved against that specification.

## Model

| member | source | states |
|---|---|---|
| Bits.BitAnd | count_bits_bench.cpp:21 | C++ `&` on unsigned values, bit by bit; the result is at most either operand (so `n &= n - 1` never grows `n`); see also BitAndLowMask and ClearLowestSetBit |
| Bits.Shr | count_bits_bench.cpp:52-54 | C++ `>>` and `>>=` on unsigned values, as repeated halving; the result is at most `n`; see also ShrIsDivision, ShrShr and ShrBound |
| Bits.ShrIsDivision | count_bits_bench.cpp:66-67 | `n >> k` is `n` divided by 2^k, rounded down |
| Bits.Add32 | count_bits_bench.cpp:51-54 | `uint32_t` `+`: a sum below 2^32 is exact and a larger one loses exactly 2^32 (also the `+` at lines 65-67 and 78-79) |
| Bits.TrailingZeros | count_bits_bench.cpp:21 | the position of the lowest set bit of a non-zero `n`: that bit is set and every bit below it is clear |
| Bits.ClearLowestSetBit | count_bits_bench.cpp:21 | `n & (n - 1)` on a non-zero `n` is `n` minus its lowest set bit (the one at `TrailingZeros(n)`), so it is smaller than `n` and has exactly one set bit fewer |
| Bits.PopCountSplit | count_bits_bench.cpp:51-54 | the set bits of `n` are those of `n & (2^k - 1)` plus those of `n >> k` (the decomposition every table strategy relies on) |
| Bits.PopCountSplitLow | count_bits_bench.cpp:51-54 | the same split, stated with the low `k` bits of `n` |
| Bits.PopCountBound | count_bits_bench.cpp:15-26 | a value below 2^k has at most `k` set bits |
| Bits.PopCountU32 | count_bits_bench.cpp:15-26 | a `uint32_t` has at most 32 set bits, so every count fits a `uint32_t` |
| Bits.PopCountAllOnes | count_bits_bench.cpp:19-25 | 2^k - 1 has exactly `k` set bits |
| Bits.BitAndLowMask | count_bits_bench.cpp:51-54 | `n & (2^k - 1)` is the number formed by the low `k` bits of `n` |
| Bits.ShrShr | count_bits_bench.cpp:52-54 | shifting right by `a` and then by `b` is shifting by `a + b`, so the successive `>>= 8` reach bytes 1, 2 and 3 |
| Bits.ShrBound | count_bits_bench.cpp:67 | a value below 2^(k+j) shifted right by `k` is below 2^j (`n >> 22` < 1024, `n >> 16` < 65536) |
| Bits.LowBitsOfSmall | count_bits_bench.cpp:54 | masking a value that already fits in the mask leaves it unchanged |
| CountBits.ReferenceCount | count_bits_bench.cpp:15-26 | the loop terminates and returns the number of set bits of `n`, which is at most 32 |
| CountBits.PopCountExtremes | count_bits_bench.cpp:19-25 | the count of 0 is 0 (the loop is not entered) and the count of 0xFFFFFFFF is 32 |
| CountBits.CountTable | count_bits_bench.cpp:38-45 | every entry of the table is written and holds the reference count of its index (taken modulo 2^32, as the `uint32_t` parameter does) |
| CountBits.CountTableIsCountTable | count_bits_bench.cpp:41-44 | a table of at most 2^32 entries built that way holds the count of each index itself |
| CountBits.ByteTableCount | count_bits_bench.cpp:49-58 | the sum of the four byte-lane lookups equals the count of `n`, every index is below 256, and no addition wraps |
| CountBits.ByteLanes | count_bits_bench.cpp:51-54 | the four byte lanes are below 256 and their counts add up to the count of `n` |
| CountBits.LaneSplit | count_bits_bench.cpp:51-54 | splitting at bit `k` gives an index below 2^k, and the counts of the two parts add up |
| CountBits.ElevenBitsTableCount | count_bits_bench.cpp:63-71 | the sum of the three lookups equals the count of `n`, with every index inside the 2048-entry table |
| CountBits.ElevenBitsLanes | count_bits_bench.cpp:65-67 | `n & 0x7FF` < 2048, `(n >> 11) & 0x7FF` < 2048, `n >> 22` < 1024, and their counts add up to the count of `n` |
| CountBits.WordsTableCount | count_bits_bench.cpp:76-83 | the sum of the two half-word lookups equals the count of `n`, with both indices inside the 65536-entry table |
| CountBits.WordsLanes | count_bits_bench.cpp:78-79 | `n & 0xFFFF` and `n >> 16` are below 65536 and their counts add up to the count of `n` |
| CountBits.WorkerRangesPartition | count_bits_bench.cpp:94-96 | the four ranges `[w * batch, (w + 1) * batch)` are disjoint and cover `[0, 2^32)`: each index lies in exactly one of them |
| CountBits.FillRange | count_bits_bench.cpp:96-100 | one worker fills its range with the eleven-bit count of each index and writes nothing outside it |
| CountBits.CountFullTable | count_bits_bench.cpp:89-103 | the new table has 2^32 entries, and each holds the count of its index |
| CountBits.FullTableSolution.constructor | count_bits_bench.cpp:105-109 | before the first use no full table has been built |
| CountBits.FullTableSolution.GetTable | count_bits_bench.cpp:105-109 | the table is built on the first call only; later calls return the same table; it is complete and correct |
| CountBits.FullTableSolution.Count | count_bits_bench.cpp:112-115 | one lookup in the cached table returns the count of `n` |
| CountBits.Agrees | count_bits_bench.cpp:194 | the test `std::count(ress, etalon) != size(ress)` fails exactly when some result differs from the reference count; `Outcome.Fail("test")` stands for the throw at line 195 |
| CountBits.Occurrences | count_bits_bench.cpp:194 | a value occurs in a sequence at most as often as it is long, and that often only when it is every element |
| CountBits.CountCheck | count_bits_bench.cpp:175-200 | every strategy agrees with the reference on every input, so the check never throws |
| ReverseInt.Div10 | reverse_int_bench.cpp:30 | C++ `x / 10` truncates toward zero, for both signs |
| ReverseInt.Rem10 | reverse_int_bench.cpp:29 | C++ `x % 10` is the remainder matching `x / 10`, in [0, 9] for non-negative `x` and in [-9, 0] for negative `x` |
| ReverseInt.ReferenceReverse | reverse_int_bench.cpp:45-59 | returns the digit reversal of `x`, with its sign, when it is an `int`, and 0 otherwise; the guards keep every value of `rev` inside the `int` range |
| ReverseInt.MyReverse | reverse_int_bench.cpp:15-39 | the same contract; the loop keeps `x <= 0` and `res <= 0`, and neither `-x` nor `-res` is taken on `INT_MIN` |
| ReverseInt.ReversalOfNegation | reverse_int_bench.cpp:17-23 | the answer for a positive `x` is the negation of the answer for `-x`, except that `INT_MIN` there gives 0 |
| ReverseInt.SolutionsAgree | reverse_int_bench.cpp:81-82 | the two solutions return the same value on every `int` |
| ReverseInt.RevFrom | reverse_int_bench.cpp:48-57 | the digit loop without its guards (`pop = x % 10; x /= 10; rev = rev * 10 + pop` until `x` is 0), the loop invariant of both solutions; with `x` and `rev` of one sign, later steps only move `rev` further from zero; the loop of lines 27-36 is the same |
| ReverseInt.RevFromIsReversal | reverse_int_bench.cpp:48-57 | running the unguarded digit loop from `rev = 0` yields the digit reversal of `x` |
| ReverseInt.RevFromNat | reverse_int_bench.cpp:48-57 | on a non-negative `x`, the loop appends the reversed digits of `x` to the accumulator |
| ReverseInt.RevFromNeg | reverse_int_bench.cpp:48-57 | on a non-positive `x`, the loop with truncating `/` and `%` is the negation of the loop on `-x` |
| ReverseInt.StepLeavesRange | reverse_int_bench.cpp:52-55 | when a guard fires, the full reversal really is outside the `int` range, so returning 0 is right |
| ReverseInt.ReversalInvolution | reverse_int_bench.cpp:45-59 | reversing twice gives back every value whose last digit is not zero |
| ReverseInt.ReverseSpecRoundTrip | reverse_int_bench.cpp:45-59 | when `x` has no trailing zero and its reversal fits, reversing the result gives `x` back |
| ReverseInt.TrailingZeroIsLost | reverse_int_bench.cpp:45-59 | 120 reverses to 21, and 21 back to 12: a trailing zero does not survive the round trip |
| ReverseInt.ReverseExamples | reverse_int_bench.cpp:27 | 0 gives 0 (the loop is skipped), 123 gives 321, and -123 gives -321 |
| ReverseInt.ReverseOverflowExample | reverse_int_bench.cpp:52-53 | 1534236469 reverses to 9646324351, above `INT_MAX`, so the result is 0 |
| ReverseInt.ReverseIntMinExample | reverse_int_bench.cpp:54-55 | `INT_MIN` reverses to -8463847412, below `INT_MIN`, so the result is 0 |
| ReverseInt.ReverseDigitsStep | reverse_int_bench.cpp:56 | the reversal of `m` is the reversal of `m / 10` followed by the last digit of `m` |
| ReverseInt.ReversedDigitsTwice | reverse_int_bench.cpp:45-59 | a natural number not ending in 0 is given back by reversing its digits twice |

## Left out

- `AsmSolution` calls the compiler intrinsic `__builtin_popcount`, whose body is not visible. In `CountBits.CountCheck` its slot holds the specification `PopCount` itself.
- `ByteTableCount` models the intended left-to-right reading of `n >>= 8` inside one `+` chain. In C++ those side effects are unsequenced, so the expression as written has no defined meaning. The model assumes bytes 0, 1, 2 and 3.
- `CountFullTable` runs the four worker ranges one after the other, and hands the table out only once all four have finished. The concurrency of `std::async` and the futures is not modelled. In the source nothing joins the workers before `return table;`: the futures' destructors wait for them only when `workers` goes out of scope, after the result is initialised, while the tasks write through the captured reference to the local `table`. The model assumes the returned pointer is that same object (copy elision), so the writes land in the returned table before it is used. Without elision the local pointer would be moved from while the workers still index it. The model does not capture that case.
- `FullTableSolution.GetTable` models "build once, then reuse" sequentially. The thread-safe once-only initialisation of the function-local static is not modelled.
- The full table is a 2^32-entry `array` here. Allocation failure and the uninitialised memory from `make_unique_noinit` are not modelled: every entry is written before it is read.
- The per-strategy tables are parameters of `ByteTableCount`, `ElevenBitsTableCount` and `WordsTableCount`, with the precondition that they are count tables. They are not `constexpr` statics.
- `CountCheck` takes the input numbers as a parameter. It runs the comparison once rather than once per benchmark iteration, and it builds its own `FullTableSolution`.
- The benchmark harness is not part of this model: `BM_Count`, `BM_Find`, the registrations, thread counts, `DoNotOptimize` and item counting.
- The random inputs (`GenerateNUmbers`, the `std::mt19937` in `BM_Find`) are replaced by parameters.
- by_value_bench.cpp is not part of this model. It measures argument passing, not a computation.
- `ReverseSpecRoundTrip` requires the last digit to be non-zero. The tempting claim that reversing twice gives back the input or 0 does not hold for inputs ending in 0, as `TrailingZeroIsLost` shows. The code never promises a round trip, and the model follows the code.
