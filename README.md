# microbench core, modelled in Dafny

This project models two small parts of the `microbench` Rust crate, a
micro-benchmarking library, and proves properties of them:

- `utility.dfy`, module `Utility`:
  - `GeometricSequence`, the iterator that produces the iteration counts of a
    benchmark. `new(start, factor)` sets a real accumulator to `start`. Each
    `next()` returns the truncation of the accumulator. It then multiplies the
    accumulator by `factor` until the truncation changes. Over exact reals the
    result is an infinite, strictly increasing stream of counts that begins
    at `start`; in the source the saturating `f64` to `u64` cast ends it (see
    "## Left out").
  - The integral part of `format_number`. It walks the decimal digits of the
    truncated number from the right, puts each at the front of the result,
    and puts a thousands separator in front before each digit that follows a
    complete group of three.
- `time.dfy`, module `Time`: the `Nanoseconds` unit type with its derived
  equality and order, and the conversion `From<Duration> for
  Nanoseconds<u64>`, which is `secs * 1_000_000_000 + subsec_nanos`.

The model uses exact reals for the `f64` accumulator of `GeometricSequence`.
So `current as u64` is `current.Floor`, because the model keeps the
accumulator at one or more. Integers are unbounded; `u64` is written out as a
subset type where its bound matters (the nanosecond conversion).

How the proofs are structured:

- `Next` carries the inner `while` loop. Its contract ties the new
  accumulator to the function `Settle`. The loop ends because of the integer
  measure `((floor(c) + 1 - c) / (factor - 1)).Floor`: each multiplication
  adds at least `factor - 1` to an accumulator of at least one.
- `Steps`, `Iterate` and `Emitted` describe the loop and the stream it
  produces. The lemmas about them state the stream's properties.
- `FormatIntegral` carries the `for` loop of `format_number`. Its contract
  ties the string to `Grouped(DecimalString(n), separator)`. `DecimalString`
  is the rendering `u64::to_string` produces. The separator placement and
  the round trip are proved about `Grouped`.

## Model

| member | source | states |
|---|---|---|
| `Utility.GeometricSequence.constructor` | src/utility.rs:24-28 | the accumulator starts at exactly `start` and the factor is the one given; `Valid()`, the precondition of `Next`, holds exactly when `start >= 1` and `factor > 1` |
| `Utility.GeometricSequence.Next` | src/utility.rs:34-38 | always returns `Some` of the truncation the accumulator had before the call; afterwards the accumulator is where the multiply-until-the-truncation-changes loop stops, its truncation is strictly larger than the returned value, and the factor is unchanged |
| `Utility.MeasureDecreases` | src/utility.rs:36 | termination of the inner loop: while the truncation is unchanged the measure is a natural number and each multiplication lowers it by at least one |
| `Utility.SettleStep` | src/utility.rs:36 | one turn of the inner loop makes the accumulator grow, keeps its truncation at least the returned value, and leaves the end state of the loop unchanged |
| `Utility.Settle` | src/utility.rs:35-36 | the accumulator when the inner loop exits is at least where it started and truncates to a value strictly greater than the one returned |
| `Utility.SettleIsFirstChange` | src/utility.rs:35-36 | the loop stops at the first multiplication after which the truncation differs; it multiplies at least once, and every earlier count of multiplications still truncates to the returned value |
| `Utility.IterateIsPower` | src/utility.rs:36 | `k` turns of the loop multiply the accumulator by `factor^k`, so the accumulator stays on the geometric sequence |
| `Utility.StallsWithoutGrowth` | src/utility.rs:26-36 | with accumulator 0 (`start == 0`) or factor exactly 1, no number of multiplications moves the accumulator, so the inner loop never exits; this is why the model requires `start >= 1` and `factor > 1` (a factor below 1 is excluded by the caller contract: the second count is then already smaller than the first; for a factor strictly between -1 and 1 the accumulator shrinks towards 0 and some call eventually never returns; for a factor of -1 or less the counts alternate with 0) |
| `Utility.EmittedStrictlyIncreasing` | src/utility.rs:17-38 | every value `next` produces is strictly greater than every value produced before it |
| `Utility.GeneratedFromStart` | src/utility.rs:17-38 | after `new(start, factor)` the first value is `start`, every value is at least `start`, and no value is produced twice |
| `Utility.DecimalString` | src/utility.rs:66 | the rendering of `n` is a non-empty string of decimal digits, starts with `0` only for `n == 0` (rendered `"0"`), and has exactly as many digits as `n` needs |
| `Utility.DecimalRoundTrip` | src/utility.rs:66 | reading the rendering back as a decimal number gives `n` |
| `Utility.FewDigitsIffBelowThousand` | src/utility.rs:66-74 | a number is rendered with at most three digits exactly when it is below 1000, so exactly those values get no separator |
| `Utility.FormatIntegral` | src/utility.rs:62-74 | the `for` loop builds exactly the right-aligned three-digit grouping of the decimal rendering; its length is the digit count plus `(digits - 1) / 3`; for a non-digit separator, deleting the separators gives the rendering back and exactly `(digits - 1) / 3` separators are inserted |
| `Utility.GroupedLength` | src/utility.rs:65-74 | grouping `L` digits produces `L + (L - 1) / 3` characters (none for no digits) |
| `Utility.UngroupRoundTrip` | src/utility.rs:65-74 | deleting every separator from the grouped digits gives exactly the digits back, when the separator is not one of them |
| `Utility.SeparatorCount` | src/utility.rs:65-74 | exactly `(L - 1) / 3` separators are inserted among `L > 0` digits |
| `Utility.Placement` | src/utility.rs:65-74 | exact content of every position: the character `q` places from the right is the separator when `q % 4 == 3`, and otherwise the digit `q - q / 4` places from the right of the rendering |
| `Utility.SeparatorAt` | src/utility.rs:65-74 | for a separator that is not a digit, a position holds the separator exactly when its distance from the right end is 3 modulo 4 |
| `Utility.LeadingGroup` | src/utility.rs:65-74 | the grouped rendering neither starts nor ends with a separator; the leftmost group has 1 to 3 digits and is followed by a separator whenever there is more |
| `Utility.GroupsOfThree` | src/utility.rs:65-74 | each separator is followed by exactly three digits and then either the end or the next separator |
| `Time.CompareNanoseconds` | src/time.rs:21-22 | the derived comparison is that of the wrapped `u64`: `Less`, `Equal` or `Greater` exactly when the first value is smaller than, equal to or larger than the second |
| `Time.FromDuration` | src/time.rs:30-35 | the nanosecond count divided by 10^9 is the duration's seconds and its remainder is the sub-second nanoseconds; defined only when the `u64` arithmetic does not overflow |
| `Time.ConvertibleBound` | src/time.rs:33 | the conversion does not overflow exactly for durations up to 18446744073 s plus 709551615 ns |
| `Time.DurationRoundTrip` | src/time.rs:31-34 | converting a duration to nanoseconds and splitting it again gives back the duration |
| `Time.NanosecondsRoundTrip` | src/time.rs:31-34 | splitting a nanosecond count and converting it back gives back the count |
| `Time.FromDurationPreservesOrder` | src/time.rs:21-35 | comparing two converted durations as `Nanoseconds` gives the same `Less`/`Equal`/`Greater` as the lexicographic order of `(secs, subsec_nanos)`; in particular, two durations convert to equal counts exactly when they are equal |
| `Time.NanosecondsTotalOrder` | src/time.rs:21-22 | the `Ord` laws of the derived comparison: any two values are comparable (at least one is not `Greater` than the other), it is antisymmetric, and both `Less` and "not `Greater`" are transitive |

## Left out

- `src/statistics.rs` (`kahan_sum`, `mean`, `regression`): floating-point numerics. Over exact reals the Kahan correction term is always zero, so a real-valued model says nothing about what the code is for.
- `black_box` (src/utility.rs:41-58) and `retain` (src/lib.rs:69-71): they are optimizer barriers, and their only stateable behaviour is identity.
- Both `Stopwatch` types (src/lib.rs:37-62, src/time.rs:39-53): they only read the clock.
- The fractional part of `format_number` (src/utility.rs:76-77) and `Display for Nanoseconds` (src/time.rs:24-28): both use float formatting. `FormatIntegral` takes the already truncated `number as u64` as a natural number.
- `f64` effects in `GeometricSequence`: rounding of each `current * factor`, so the `f64` accumulator drifts from the exact-real one (it cannot stall the loop: for `current >= 1` and an `f64` factor above 1 the rounded product is always larger), the saturating `as u64` cast of a huge accumulator (once `current` reaches 2^64 its truncation is stuck at `u64::MAX`, so the next call of `next()` never returns, and the stream of the source is finite before it hangs), and an inexact `start as f64` above 2^53. The model computes on exact reals.
- Utility.GeometricSequence.Next: the inner loop works on a local copy of the accumulator and writes it to `current` once, when the loop exits. The source writes `current` on every multiplication. Nothing can observe the object during the loop, so the two agree. The returned counts are unbounded naturals rather than saturated `u64`s.
- Utility.GeometricSequence.constructor: `start` is a natural number, not bounded by `u64`.
- Utility.FormatIntegral: `n` is a natural number, not bounded by `u64`; the caller's truncation `number as u64` of a float is not modelled.
- Time.FromDuration: requires that the result fits in a `u64`. Beyond that the source's `u64` arithmetic panics in a debug build and wraps in a release build; neither behaviour is modelled.
- Utility.GeometricSequence: the source's value is `Copy`; the class is a reference, so copies of it, which would be independent generators in the source, are not modelled.
- Time.CompareDurations: the standard library's derived lexicographic order on `Duration`, not a member of the source; the order-preservation lemma compares against it.
- Time.ToDuration: this inverse is not in the source. It is the reference that the round-trip lemmas compare the conversion against.
- `Nanoseconds<T>` is modelled only at `T = u64`, the one instantiation the source converts to and compares.
- The sampling loop, budgets, options and the reporting driver are not part of this model.
