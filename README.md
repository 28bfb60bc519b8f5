# problem_of_13: positive integers with a given digit sum

The repository `problem_of_13` generates, in ascending order, the positive
integers whose decimal digit sum equals a target `S` (a non-zero `u8`). It
has several generators:

- **`WithDigitSum`**: jumps ahead, recomputing the digit sum at each step.
- **`FutureLooking`** (`WithDigitSumAdvanced` in the binary crate): jumps
  ahead with a carry-corrected running prefix digit sum, `assumed`.
- **`WithDigitSum13`**: hard-wired to `S` = 13.
- **`SlowSequential`**: a linear scan with the same tracker.
- **`IntsWithDigitSumInBounds`**: the terms inside a window of values.
- **`FullyPar`**: splits a sizing bound into ranges, runs the bounded
  generator on each and concatenates the parts.

Around them sit the helpers they share:

- `digits_sum`, built on a digit iterator;
- `get_initial`, the least term;
- `count_addition`, the least low-order completion of a hundred block;
- `count_iterations`, a per-block estimate of how many terms a range holds;
- `count_iter_end`, the forward sizing scan that `FullyPar` uses.

The Dafny project models the library crate `libsum13`. The binary crate
(`src/integer.rs`, `src/main.rs`) repeats that code, and every copy that
matches line for line is modelled by the same member. The binary crate's
`FullyPar` is the one exception: it falls back on a different test, so it
has a member of its own.

## How the model is built

- `Terms` gives the specification:
  - `IsTerm(S, v)` holds when `DigitSum(v) == S`;
  - `IsNextAfter(S, acc, w)` says `w` is the least term above `acc`;
  - `FirstTerms(S, xs)` says `xs` lists the first `|xs|` terms;
  - `EnumeratesRange(S, xs, lo, hi)` says `xs` lists, in ascending order,
    exactly the terms in `[lo, hi)`.
- Every generator is an imperative method. Its loops carry invariants, and
  its `ensures` clause ties the output to these predicates.
- Integers are unbounded. `S` ranges over `1..171`, because `get_initial`
  overflows `u64` above 171.
- The `u32` subtraction `iterations - 1` becomes the precondition
  `iterations >= 1` wherever the source performs it.
- The scan tests of `FutureLooking` and of the bounded generator are
  modelled twice, chosen by an `asWritten` flag:
  - as the source writes them, `assumed > S || S - assumed >= 100`;
  - corrected, `S - assumed > 18` (see Findings).
- For the as-written test, correctness is proved where it holds:
  - a step is exact when `S < 100` (`StepIsExact`);
  - a scan from an arbitrary hundred boundary is exact when `S <= 18`
    (`ScanIsExact`).

## Model

| member | source | states |
|---|---|---|
| DigitSums.DigitIter.constructor | libsum13/src/lib.rs:13 | The iterator starts with the whole value and a radix of at least two. |
| DigitSums.DigitIter.Next | libsum13/src/lib.rs:15-26 | Yields `None` exactly when the remaining value is zero. Otherwise yields the low digit and divides the value by the radix, so the value strictly decreases and loses exactly the yielded digit from its digit sum. The same iterator is src/main.rs:19-32. |
| DigitSums.DigitsSum | libsum13/src/lib.rs:28-32 | Summing everything the decimal iterator yields gives `DigitSum(n)`. That is 0 for 0, and `n % 10 + DigitSum(n / 10)` otherwise. The same code is src/main.rs:34-38. |
| DigitSums.DigitSumUnfold | src/main.rs:23-37 | `DigitSum(n) == n % 10 + DigitSum(n / 10)` for every `n`, zero included. |
| DigitSums.AdvanceAssumed | libsum13/src/integer/future_looking.rs:32-40 | The tracker step adds one, then takes nine back per trailing nine. From `DigitSum(elem)` it yields `DigitSum(elem + 1)`, and no subtraction goes below zero. |
| DigitSums.IncrementDigitSum | libsum13/src/integer.rs:106-114 | Adding one raises the digit sum by one and lowers it by nine for each trailing nine. This justifies the tracker everywhere it appears. |
| DigitSums.DigitSumCongruent | libsum13/src/lib.rs:17-31 | A number's digit sum is at most the number and congruent to it modulo 9. |
| DigitSums.DigitSumOfBlock | libsum13/src/lib.rs:17-31 | `DigitSum(100*k + m) == DigitSum(k) + DigitSum(m)` for `m < 100`. This is the block decomposition every generator relies on. |
| Terms.ChainToRange | libsum13/src/integer/bounded.rs:88-99 | A chain of successive terms from `lo` whose last element is below `hi`, with no term between it and `hi`, lists exactly the terms of `[lo, hi)`. |
| Terms.RangeConcat | libsum13/src/integer/fully_par.rs:99-109 | Concatenating the listings of two adjacent ranges, in order, lists their union. |
| Terms.ChainAgree | libsum13/src/lib.rs:114-209 | Two chains of successive terms from the same start agree on their common prefix. So any two generators proved to list first terms agree term by term. |
| Terms.FirstTermsAgree | libsum13/src/lib.rs:241-270 | Two listings of the first terms with the same length are equal. This gives the `FullyPar`/`WithDigitSum` equality the set test checks, and it also covers src/main.rs:215-240. |
| Integer.GetInitial | libsum13/src/integer.rs:27-48 | The first term: the least positive integer with digit sum `S`, the greedy fill with nines from the right, below 2^64. The same code is src/main.rs:113-134. |
| Integer.InitialExamples | libsum13/src/integer.rs:194-222 | The tested values: `s` for 1..9; 19, 29, …, 99 for 10..18; 199, 299, 399, 499, 599, 699, 799 for 19..25; 8999 for 35. These also cover src/main.rs:144-166. |
| Integer.GreedyDigitSum | libsum13/src/integer.rs:32-45 | The greedy fill has digit sum exactly the remainder it is given. |
| Integer.GreedyLeast | libsum13/src/integer.rs:32-45 | The greedy fill is no larger than any number with that digit sum. |
| Integer.GreedyTwoDigits | libsum13/src/integer.rs:57-70 | The greedy fill is below 100 exactly when the remainder is at most 18. |
| Integer.GreedyFill | libsum13/src/integer/dynamic.rs:32-45 | The completion loop returns the least number whose digit sum is the remainder. |
| Integer.CountAddition | libsum13/src/integer.rs:50-73 | Returns 0 when `DigitSum(value) > S`, and also when the two are equal. Otherwise the result has digit sum `S - DigitSum(value)`. On a hundred boundary with residual at most 18, the result is below 100 and completes the block's least term. The same code is src/integer.rs:283-306. |
| Integer.NineStep | libsum13/src/integer/dynamic.rs:21-24 | When `acc + 9` is a term, it is the next term after the term `acc`. Terms are congruent modulo 9, so nothing lies in between. |
| Integer.LastOfBlock | libsum13/src/integer/dynamic.rs:26 | When the `+9` fast path fails, `acc` is the last term of its hundred block. |
| Integer.NoTermInBlock | libsum13/src/integer/dynamic.rs:28-30 | A block whose prefix digit sum exceeds `S`, or leaves more than 18, holds no term. |
| Integer.LeastOfBlock | libsum13/src/integer/future_looking.rs:45-62 | In a block whose prefix leaves a residual of at most 18, the least term is the block start plus the greedy completion, and nothing in the block comes before it. |
| Integer.CarryCompletion | libsum13/src/integer/dynamic.rs:32-47 | Suppose the prefix leaves more than 18, and the previous block either leaves a residual of at most 18 or has a prefix over `S`. Then the greedy completion, which carries past the block, still lands on the least term at or after the block start. |
| Integer.CarryTerm | libsum13/src/integer/dynamic.rs:32-47 | When the residual exceeds 18, the greedy completion ends in 99 and its upper digits fit into the trailing nines of the previous prefix, so the completed number has digit sum exactly `S`. |
| Integer.CompletionIsNext | libsum13/src/integer/future_looking.rs:45-62 | Suppose the scan from the term `acc` stops at a prefix the test accepts with no term passed over, and, under the as-written test, the block before it is `acc`'s block or one over `S`. Then the prefix does not exceed `S` and completing it gives the next term after `acc`. The same completion is libsum13/src/integer/bounded.rs:81-85. |
| Integer.SkipsBlockExactly | libsum13/src/integer/future_looking.rs:31 | The corrected skip test rejects exactly the blocks that hold no term. |
| Integer.GuardsAgreeForSmallSums | libsum13/src/integer/bounded.rs:30 | For `S <= 18`, the as-written test and the corrected test agree. |
| Integer.AsWrittenGuardAdmitsEmptyBlock | libsum13/src/integer/bounded.rs:30-92 | For `S` = 29 and a window from 200 to 5200, the as-written test accepts block 2, which holds no term; its completion 1199 (digit sum 20) is dropped. The next step from 1199 fails the `+9` check at 1208, accepts block 12 the same way and emits 2099, whose digit sum is 20. |
| Integer.AsWrittenGuardMisplacesCompletion | libsum13/src/integer/future_looking.rs:31-62 | For `S` = 110 after the term 2999999999999, the as-written test stops at prefix 30000000008, which the corrected test skips. The completion gives 3100000000799, whose digit sum is 29. |
| Integer.NextMultipleOfHundred | libsum13/src/integer/statique.rs:18 | A multiple of 100 at least `x` and less than `x + 100`. |
| Integer.NextHundred | libsum13/src/integer/statique.rs:18 | Rounding `acc + 1` up to a multiple of 100 gives the first multiple of 100 strictly above `acc`. |
| Integer.ScanAdvance | libsum13/src/integer/dynamic.rs:28-30 | One round of the block scan from a boundary whose prefix exceeds `S` moves to the next boundary, passes over no term and never overshoots a boundary whose prefix fits. The same loop is libsum13/src/integer/statique.rs:20-22. |
| Integer.TermBlockFeasible | libsum13/src/integer/dynamic.rs:28-32 | The block of any term has prefix digit sum at most `S` and at least `S - 18`. |
| Counting.ChargeBlock | libsum13/src/integer.rs:85-104 | The labelled per-block charge is the block formula `BlockCount`: 0 when the prefix exceeds `S`, otherwise between 1 and `S - d + 1`. The `checked_sub`/`checked_add` chain is rendered as that formula, so the agreement with the tested `get_iter_number` is by construction. What the formula is worth is stated by `Counting.BlockCountExact` and `Counting.CountInexactSums`. |
| Counting.CountIterations | libsum13/src/integer.rs:75-133 | The tracker version equals the from-scratch `count_iterations_original` on every range, not only the tested ones. The same code is src/integer.rs:432-491. |
| Counting.AlignedCount | libsum13/src/integer.rs:120-132 | When `end` is a multiple of 100 the tail adds nothing, and the count is the sum of the block charges. |
| Counting.CountAdditive | libsum13/src/integer.rs:83-132 | At a multiple of 100, `count(a, c) == count(a, b) + count(b, c)`. |
| Counting.BlockTermCount | libsum13/src/integer.rs:224-252 | The true number of terms in block `k` is the number of two-digit pairs adding to `S - DigitSum(k)`. |
| Counting.BlockCountExact | libsum13/src/integer.rs:224-252 | For `S` in 1..18 other than 10, the formula for every block equals that true count. |
| Counting.CountIterationsExact | libsum13/src/integer.rs:254-275 | For those sums and block-aligned ranges, the estimate is the exact number of terms. |
| Counting.CountExamples | libsum13/src/integer.rs:314-320 | `count_iterations(13, 0, 100) == 6` and `count_iterations(13, 0, 200) == 13`, as at src/integer.rs:762-767. |
| Counting.CountInexactSums | libsum13/src/integer.rs:85-104 | The formula over-counts block 0 for `S` = 10 (10 against 9 terms), and every block leaving a residual of 10 or more when `S >= 19`. |
| Counting.CountIterEnd | libsum13/src/integer.rs:135-184 | As written: the least multiple of 100 whose charges reach `iterations`, where block `i` is charged with the digit sum of `i + 1`. The same code is src/integer.rs:492-540. |
| Counting.IterEndZero | libsum13/src/integer.rs:143-147 | The sizing scan returns 0 exactly when `iterations` is 0. |
| Counting.IterEndUndershoots | libsum13/src/integer.rs:148-180 | For `S` = 13 and 34 iterations the scan returns 400, yet only 30 terms lie below 400. |
| Counting.BoundFor | libsum13/src/integer/fully_par.rs:74 | The corrected sizing scan: the least multiple of 100 whose `count_iterations` from 0 reaches `iterations`. It is 0 exactly when `iterations` is 0. |
| Counting.BoundIsSufficient | libsum13/src/integer/fully_par.rs:74-110 | For the exact sums, the range below the corrected bound holds at least `iterations` terms. |
| Counting.EnumerationLength | libsum13/src/integer/fully_par.rs:106-110 | A listing of a range has as many elements as the range has terms. |
| Dynamic.ScanBlocks | libsum13/src/integer/dynamic.rs:26-30 | Finds the first hundred boundary above `acc` whose prefix does not exceed `S`, so the residual does not underflow. Every block passed over holds no term. The block before it is `acc`'s block or one over `S`. |
| Dynamic.Step | libsum13/src/integer/dynamic.rs:21-47 | From any term, the step yields the least term above it, whatever `S` is. |
| Dynamic.GetInts | libsum13/src/integer/dynamic.rs:12-54 | Yields exactly `iterations` items, and they are the first `iterations` terms in ascending order. The same code is src/integer.rs:78-120. |
| Statique.Addition13 | libsum13/src/integer/statique.rs:36-40 | The closed two-digit completion equals the greedy completion for digit sum 13, is below 100, and has digit sum `13 - d`. |
| Statique.Step13 | libsum13/src/integer/statique.rs:13-43 | From a term with digit sum 13, yields the least term above it. |
| Statique.GetInts13 | libsum13/src/integer/statique.rs:10-48 | Starts at 49 and yields exactly `iterations` items: the first terms with digit sum 13. This is what the oracle test at libsum13/src/lib.rs:46-55 checks. The same code is src/integer.rs:38-76. |
| FutureLooking.ScanPrefixes | libsum13/src/integer/future_looking.rs:27-45 | Keeps `assumed` equal to the digit sum of the prefix, stops at a prefix above `acc`'s block that the test accepts, and passes over no term. With the as-written test and `S < 100`, it stops where `WithDigitSum` stops. |
| FutureLooking.Step | libsum13/src/integer/future_looking.rs:22-63 | The result always exceeds `acc`. From a term it is the next term, with the corrected test for every `S`, or with the as-written one when `S < 100`. |
| FutureLooking.GetInts | libsum13/src/integer/future_looking.rs:14-69 | Yields exactly `iterations` strictly increasing items, starting at the first term. They are the first terms under the same conditions as each step. This member also models `WithDigitSumAdvanced` and `FutureLooking` in src/integer.rs:122-178 and 226-281, which have the same body. |
| Sequential.GetInts | libsum13/src/integer/sequential.rs:12-39 | For any `iterations`, zero included, yields exactly the first `iterations` terms. The same code is src/integer.rs:632-659. |
| Bounded.RoundDown | libsum13/src/integer/bounded.rs:16-17 | The multiple of 100 at or below `x`, within 100 of it. |
| Bounded.Initial | libsum13/src/integer/bounded.rs:22-52 | The first candidate is at least the rounded start. Under an exact scan it is a term or lies past `end`, and there is no term before it in the window. |
| Bounded.ScanBelow | libsum13/src/integer/bounded.rs:60-79 | The step's scan keeps `assumed` equal to the prefix digit sum and passes over no term after a term `acc`. It gives up only once the next block starts past `end`. When it stops in range, the prefix passes the test, and with the as-written test and `S < 100` the block before it is `acc`'s block or one over `S`. |
| Bounded.NextInBounds | libsum13/src/integer/bounded.rs:54-93 | A result lies strictly between `acc` and `end`. From a term (with an exact step) it is the next term, and `None` means no term remains below `end`. |
| Bounded.GetInts | libsum13/src/integer/bounded.rs:14-101 | Yields strictly increasing values inside the rounded window. Under an exact scan they list exactly the terms of `[RoundDown(start), RoundDown(end))`. The same code is src/integer.rs:543-630. |
| FullyPar.Parts | libsum13/src/integer/fully_par.rs:89-97 | Makes `n` ranges: the first starts at 0, each ends where the next starts, and the last ends at `n*(L/n)`, which is at most `L` and within `n` of it. |
| FullyPar.ConcatParts | libsum13/src/integer/fully_par.rs:99-109 | Running the bounded generator on contiguous parts from 0 and concatenating them in order gives an ascending list below the last part's rounded end. When the scan is exact, for either test, it lists exactly the terms there. |
| FullyPar.Partitioned | libsum13/src/integer/fully_par.rs:85-111 | The concatenation cut to `iterations` ascends below the covered bound. Under an exact scan it is the first terms, as many as `iterations` or as the covered range holds, whichever is fewer. |
| FullyPar.GetInts | libsum13/src/integer/fully_par.rs:73-112 | As written: the bound is the one `count_iter_end` returns, and the output ascends and never exceeds `iterations`. At or below the threshold it is exactly the first `iterations` terms. Above it, it lies below the covered bound, and under an exact scan it is the first terms, as many as the partition holds. |
| FullyPar.AsWrittenSizingShort | libsum13/src/integer/fully_par.rs:74-110 | For `S` = 13, 103 iterations and one worker, the bound `count_iter_end` admits is 1300, and only 99 terms lie below it, so the as-written `get_ints` returns 99 items. |
| FullyPar.GetIntsCorrected | libsum13/src/integer/fully_par.rs:73-112 | Sized with the corrected bound and run with the corrected test, the output is always first terms. It is exactly `iterations` long at or below the threshold, and above it for the exact sums whenever no range is lost to the division, in particular with one worker. |
| BinaryCrate.FullyParGetInts | src/integer.rs:366-405 | The binary crate's `FullyPar`, as written: sized with `count_iter_end`, falling back when that bound, not `iterations`, is at most `n*100`, and running the parts with the as-written test. Its guarantees are the library's, keyed on the bound. |
| Agreement.RangeIsSlice | libsum13/src/integer.rs:277-312 | A listing of `[lo, hi)` is the slice of the full sequence between the term counts below `lo` and below `hi`. |
| Agreement.BoundedMatchesSequence | libsum13/src/integer.rs:277-312 | For the exact sums and a block-aligned `from`, the bounded output equals the full sequence from index `count_iterations(S, 0, from)`, as the test checks. This also covers src/integer.rs:724-759. |

## Left out

- Fixed-width arithmetic. Values are unbounded naturals. `GetInitial` is
  proved below 2^64, but the later terms are not bounded against `u64`
  overflow, so overflow paths are not modelled.
- Iterator laziness. Each generator returns a `seq` of the terms it would
  yield. The infinite `scan`/`take` pairs become loops that stop after
  `iterations` items.
- Threads. `current_num_threads`, `into_par_iter` and `collect_into_vec`
  become a thread-count parameter `n >= 1` and a sequential, order-keeping
  map over the parts.
- `NaivePar` (libsum13/src/integer/naive_par.rs, src/integer.rs:180-224):
  feature-gated and deprecated. Its sequential meaning is the block scan of
  `WithDigitSum`.
- The string-based brute-force oracle (src/string.rs). Its role is taken by
  the `IsTerm` predicate.
- Benchmarking, printing and `main` in src/main.rs.
- The dispatch and adapter code: `new_expect` (becomes `S >= 1`), the
  traits, the either-iterator and the debug helpers.
- The `advanced` and `combinatorics` modules, referenced but not part of
  this model.
- Counting.CountIterations: the non-aligned tail, which floors
  `(end % 100 - addition) / 9`, is modelled but not related to the true
  count.
- Counting.CountIterationsExact: exactness is proved only for `S` in 1..18
  other than 10. For other sums the formula over-counts
  (`Counting.CountInexactSums`).
- FullyPar.GetInts: the last range ends at `n*(L/n)`, so up to `n - 1`
  values below `L` are in no range, as the code is written. The length is
  stated through the partition's term count.
- FullyPar.GetInts: on the partitioned path the output is proved to be the
  first terms only for `S <= 18`, because the parts run the as-written scan
  test (see Findings). For larger sums only its order and bounds are proved.
- FullyPar.Partitioned: with the as-written test, first terms and the length
  are proved only for `S <= 18`.
- FullyPar.ConcatParts: with the as-written test, the exact listing is proved
  only for `S <= 18`.
- BinaryCrate.FullyParGetInts: on the partitioned path, first terms are proved
  only for `S <= 18`, for the same reason.
- FutureLooking.Step: with the as-written test, correctness is proved only
  for `S < 100`, because of the finding below.
- FutureLooking.GetInts: with the as-written test, the output is proved to
  be the first terms only for `S < 100`.
- Bounded.GetInts: with the as-written tests, the exact window listing is
  proved only for `S <= 18`, because the initial scan can stop in an empty
  block for `S` in 19..99.

## Findings

| source | as written | input that shows it | evidently intended | confidence | as-written member | corrected member |
|---|---|---|---|---|---|---|
| libsum13/src/integer/bounded.rs:30-31 | The initial scan keeps blocks with `sum - assumed < 100`, so a block leaving 19..99 is accepted although two digits add to at most 18. The step's scan at bounded.rs:64 does the same. | `S` = 29 with the window [200, 5200): block 2 is accepted although it holds no term, and the next step accepts block 12 the same way and emits 2099, whose digit sum is 20. | Skip every block whose residual exceeds 18. | not executed | Integer.AsWrittenGuardAdmitsEmptyBlock | Bounded.GetInts |
| libsum13/src/integer/future_looking.rs:31 | The same test stops at a prefix leaving a residual of 100 or more, whose completion then carries into the prefix. bounded.rs:64 repeats it. | `S` = 110 after the term 2999999999999: the scan stops at prefix 30000000008 and yields 3100000000799, whose digit sum is 29. | Skip every block whose residual exceeds 18. | not executed | Integer.AsWrittenGuardMisplacesCompletion | FutureLooking.Step |
| libsum13/src/integer.rs:149-159 | `count_iter_end` advances the tracker before charging block `i`, so that block is charged with the digit sum of `i + 1`. | `S` = 13, 34 iterations: returns 400, but only 30 terms lie below 400. | Charge block `i` with the digit sum of `i`, as `count_iterations` does. | not executed | Counting.IterEndUndershoots | Counting.BoundFor |
| libsum13/src/integer/fully_par.rs:74 | `FullyPar` sizes its partition with `count_iter_end`, which undershoots (previous row), and `take` cannot make up the missing terms. src/integer.rs:367 repeats it. | `S` = 13, 103 iterations, one worker: the bound is 1300, below which only 99 terms lie, so 99 items are returned. | Size with `count_iterations` charged by each block's own prefix. | not executed | FullyPar.AsWrittenSizingShort | FullyPar.GetIntsCorrected |
