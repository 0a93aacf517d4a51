/**
 * Time-related utilities: the `Nanoseconds` unit type and its conversion
 * from a `std::time::Duration`.
 */
module Time {

  const NANOS_PER_SEC: nat := 1_000_000_000
  const U64_MAX: nat := 0xFFFF_FFFF_FFFF_FFFF

  /** Rust's `u64`. */
  type U64 = x: int | 0 <= x <= U64_MAX

  /** The sub-second part of a `Duration`, which is always below one second. */
  type SubsecNanos = x: nat | x < NANOS_PER_SEC

  /** `std::time::Duration`: whole seconds and the nanoseconds beyond them. */
  datatype Duration = Duration(secs: U64, subsecNanos: SubsecNanos)

  /** A duration counted in nanoseconds, at the `u64` instantiation of `Nanoseconds<T>`. */
  datatype Nanoseconds = Nanoseconds(value: U64)

  datatype Ordering = Less | Equal | Greater

  /** The derived `Ord` of `Nanoseconds`: that of the wrapped integer. */
  function CompareNanoseconds(a: Nanoseconds, b: Nanoseconds): (r: Ordering)
    ensures r == Less <==> a.value < b.value
    ensures r == Equal <==> a == b
    ensures r == Greater <==> b.value < a.value
  {
    if a.value < b.value then Less else if a.value == b.value then Equal else Greater
  }

  /** The derived `Ord` of `Duration`: lexicographic on (seconds, sub-second nanoseconds). */
  function CompareDurations(a: Duration, b: Duration): Ordering
  {
    if a.secs < b.secs then Less
    else if a.secs > b.secs then Greater
    else if a.subsecNanos < b.subsecNanos then Less
    else if a.subsecNanos == b.subsecNanos then Equal
    else Greater
  }

  /** The derived `Ord` of `Nanoseconds` is a total order. */
  lemma NanosecondsTotalOrder(a: Nanoseconds, b: Nanoseconds, c: Nanoseconds)
    ensures CompareNanoseconds(a, b) != Greater || CompareNanoseconds(b, a) != Greater
    ensures CompareNanoseconds(a, b) != Greater && CompareNanoseconds(b, a) != Greater ==> a == b
    ensures CompareNanoseconds(a, b) == Less <==> CompareNanoseconds(b, a) == Greater
    ensures CompareNanoseconds(a, b) != Greater && CompareNanoseconds(b, c) != Greater ==> CompareNanoseconds(a, c) != Greater
    ensures CompareNanoseconds(a, b) == Less && CompareNanoseconds(b, c) == Less ==> CompareNanoseconds(a, c) == Less
  {
  }

  /** Whether `secs * 1_000_000_000 + subsec_nanos` fits a `u64` without overflowing. */
  predicate Convertible(d: Duration)
  {
    d.secs * NANOS_PER_SEC + d.subsecNanos <= U64_MAX
  }

  /**
   * `From<Duration> for Nanoseconds<u64>`: the whole seconds scaled to
   * nanoseconds plus the sub-second nanoseconds. The `u64` arithmetic does
   * not overflow exactly when the duration is `Convertible`.
   */
  function FromDuration(d: Duration): (n: Nanoseconds)
    requires Convertible(d)
    ensures n.value / NANOS_PER_SEC == d.secs
    ensures n.value % NANOS_PER_SEC == d.subsecNanos
  {
    Nanoseconds(d.secs * NANOS_PER_SEC + d.subsecNanos)
  }

  /** Splits a number of nanoseconds into whole seconds and the rest. */
  function ToDuration(n: Nanoseconds): (d: Duration)
    ensures Convertible(d)
  {
    Duration(n.value / NANOS_PER_SEC, n.value % NANOS_PER_SEC)
  }

  /**
   * The durations that convert are those below 18446744073 seconds plus
   * 709551615 nanoseconds, the largest `u64` number of nanoseconds.
   */
  lemma ConvertibleBound(d: Duration)
    ensures Convertible(d) <==>
              d.secs < 18_446_744_073 || (d.secs == 18_446_744_073 && d.subsecNanos <= 709_551_615)
  {
  }

  /** Converting a duration to nanoseconds and splitting it again gives the duration back. */
  lemma DurationRoundTrip(d: Duration)
    requires Convertible(d)
    ensures ToDuration(FromDuration(d)) == d
  {
    var n := FromDuration(d);
    assert n.value / NANOS_PER_SEC == d.secs;
  }

  /** Splitting a number of nanoseconds and converting it back gives the number back. */
  lemma NanosecondsRoundTrip(n: Nanoseconds)
    ensures FromDuration(ToDuration(n)) == n
  {
    var d := ToDuration(n);
    assert d.secs * NANOS_PER_SEC + d.subsecNanos == n.value;
  }

  /**
   * The conversion preserves order and equality: comparing two converted
   * durations as `Nanoseconds` gives the same answer as comparing the
   * durations themselves.
   */
  lemma FromDurationPreservesOrder(a: Duration, b: Duration)
    requires Convertible(a) && Convertible(b)
    ensures CompareNanoseconds(FromDuration(a), FromDuration(b)) == CompareDurations(a, b)
    ensures FromDuration(a) == FromDuration(b) <==> a == b
  {
    var x, y := FromDuration(a).value, FromDuration(b).value;
    if a.secs < b.secs {
      assert x < (a.secs + 1) * NANOS_PER_SEC <= b.secs * NANOS_PER_SEC <= y;
    } else if a.secs > b.secs {
      assert y < (b.secs + 1) * NANOS_PER_SEC <= a.secs * NANOS_PER_SEC <= x;
    }
  }
}
