/**
 * Miscellaneous utilities of the micro-benchmark library: the geometric
 * sequence of iteration counts and the thousands-separated rendering of the
 * integral part of a number.
 *
 * The `f64` accumulator of the sequence is modelled by an exact `real`; the
 * truncating cast `as u64` of a value that is at least one is its `Floor`.
 */
module Utility {

  datatype Option<T> = None | Some(value: T)

  //==========================================================================
  // GeometricSequence
  //==========================================================================

  /** `f` raised to the `k`-th power: what `k` multiplications by `f` do. */
  function Pow(f: real, k: nat): real
  {
    if k == 0 then 1.0 else f * Pow(f, k - 1)
  }

  /**
   * Termination measure of the inner loop of `Next` while the accumulator is
   * still truncated to `s`: how many steps of size `f - 1` still fit below
   * `s + 1`.
   */
  function Measure(s: int, c: real, f: real): int
    requires f > 1.0
  {
    (((s + 1) as real - c) / (f - 1.0)).Floor
  }

  lemma ProductNonNegative(x: real, y: real)
    requires x >= 0.0 && y >= 0.0
    ensures x * y >= 0.0
  {
  }

  /** One multiplication by `f` adds at least `f - 1` to an accumulator `c >= 1`. */
  lemma StepGrowsByAtLeast(c: real, f: real)
    requires c >= 1.0 && f > 1.0
    ensures c * f - c >= f - 1.0
  {
    ProductNonNegative(c - 1.0, f - 1.0);
    assert (c - 1.0) * (f - 1.0) == c * f - c - f + 1.0;
  }

  /** Dividing by `d` commutes with taking away `c` steps of size `d`. */
  lemma QuotientShift(a: real, c: real, d: real)
    requires d > 0.0
    ensures (a - c * d) / d == a / d - c
  {
  }

  /**
   * While the accumulator still truncates to `s`, the measure is a natural
   * number and one multiplication by `f` lowers it by at least one.
   */
  lemma MeasureDecreases(s: int, c: real, f: real)
    requires f > 1.0 && c >= 1.0 && c.Floor == s
    ensures 0 <= Measure(s, c, f)
    ensures Measure(s, c * f, f) < Measure(s, c, f)
  {
    var a, d := (s + 1) as real, f - 1.0;
    QuotientShift(a - c, c, d);
    assert a - c * f == (a - c) - c * d;
    assert (a - c * f) / d == (a - c) / d - c;
    assert (a - c) / d > 0.0 by {
      assert a - c > 0.0;
    }
  }

  /**
   * The accumulator after the inner loop of `Next`, started at `c` while the
   * value being returned is `s`: multiply by `f` until the truncation is no
   * longer `s`.
   */
  function Settle(s: int, c: real, f: real): (r: real)
    requires f > 1.0 && c >= 1.0 && s <= c.Floor
    ensures r >= c && r.Floor > s
    decreases Measure(s, c, f)
  {
    if c.Floor == s then
      MeasureDecreases(s, c, f);
      StepGrowsByAtLeast(c, f);
      Settle(s, c * f, f)
    else
      c
  }

  /** One turn of the inner loop of `Next`: it does not change where the loop ends. */
  lemma SettleStep(s: int, c: real, f: real)
    requires f > 1.0 && c >= 1.0 && c.Floor == s
    ensures c * f >= c && s <= (c * f).Floor
    ensures Settle(s, c * f, f) == Settle(s, c, f)
    ensures Steps(s, c * f, f) < Steps(s, c, f)
  {
    StepGrowsByAtLeast(c, f);
  }

  /** The number of multiplications `Settle` performs. */
  function Steps(s: int, c: real, f: real): nat
    requires f > 1.0 && c >= 1.0 && s <= c.Floor
    decreases Measure(s, c, f)
  {
    if c.Floor == s then
      MeasureDecreases(s, c, f);
      StepGrowsByAtLeast(c, f);
      1 + Steps(s, c * f, f)
    else
      0
  }

  /** The accumulator after `k` multiplications by `f`, starting from `c`. */
  function Iterate(c: real, f: real, k: nat): real
    decreases k
  {
    if k == 0 then c else Iterate(c * f, f, k - 1)
  }

  /** `k` multiplications by `f` multiply the accumulator by `f^k`. */
  lemma {:induction false} IterateIsPower(c: real, f: real, k: nat)
    ensures Iterate(c, f, k) == c * Pow(f, k)
    decreases k
  {
    if k > 0 {
      IterateIsPower(c * f, f, k - 1);
      assert (c * f) * Pow(f, k - 1) == c * (f * Pow(f, k - 1));
    }
  }

  /**
   * `Settle` stops at the FIRST multiplication after which the accumulator
   * is no longer truncated to `s`: it is the accumulator after
   * `Steps(s, c, f)` multiplications, and after every smaller number of
   * multiplications the accumulator still truncates to `s`.
   */
  lemma {:induction false} SettleIsFirstChange(s: int, c: real, f: real)
    requires f > 1.0 && c >= 1.0 && s <= c.Floor
    ensures Settle(s, c, f) == Iterate(c, f, Steps(s, c, f))
    ensures c.Floor == s ==> Steps(s, c, f) >= 1
    ensures forall j :: 0 <= j < Steps(s, c, f) ==> Iterate(c, f, j).Floor == s
    decreases Measure(s, c, f)
  {
    if c.Floor == s {
      MeasureDecreases(s, c, f);
      StepGrowsByAtLeast(c, f);
      SettleIsFirstChange(s, c * f, f);
      forall j | 0 <= j < Steps(s, c, f)
        ensures Iterate(c, f, j).Floor == s
      {
        if j > 0 {
          assert Iterate(c, f, j) == Iterate(c * f, f, j - 1);
        }
      }
    }
  }

  /**
   * Without growth the inner loop of `Next` can never leave: from a zero
   * accumulator, or with a factor of exactly one, every number of
   * multiplications leaves the accumulator, and so its truncation, where it
   * was.
   */
  lemma {:induction false} StallsWithoutGrowth(c: real, f: real, k: nat)
    requires c == 0.0 || f == 1.0
    ensures Iterate(c, f, k) == c
    decreases k
  {
    if k > 0 {
      if c == 0.0 {
        assert c * f == 0.0;
      } else {
        assert c * f == c * 1.0 == c;
      }
      StallsWithoutGrowth(c * f, f, k - 1);
    }
  }

  /** The first `n` values a sequence in state `(c, f)` produces. */
  ghost function Emitted(c: real, f: real, n: nat): (vs: seq<int>)
    requires c >= 1.0 && f > 1.0
    ensures |vs| == n
    decreases n
  {
    if n == 0 then [] else [c.Floor] + Emitted(Settle(c.Floor, c, f), f, n - 1)
  }

  /** Every value produced is strictly larger than every value produced before it. */
  lemma {:induction false} EmittedStrictlyIncreasing(c: real, f: real, n: nat)
    requires c >= 1.0 && f > 1.0
    decreases n
    ensures forall i, j :: 0 <= i < j < n ==> Emitted(c, f, n)[i] < Emitted(c, f, n)[j]
  {
    if n > 1 {
      var c' := Settle(c.Floor, c, f);
      EmittedStrictlyIncreasing(c', f, n - 1);
      var vs, tail := Emitted(c, f, n), Emitted(c', f, n - 1);
      assert vs == [c.Floor] + tail;
      forall i, j | 0 <= i < j < n
        ensures vs[i] < vs[j]
      {
        if i == 0 {
          assert vs[j] == tail[j - 1];
          assert tail[0] == c'.Floor;
          assert tail[0] <= tail[j - 1];
        } else {
          assert vs[i] == tail[i - 1] && vs[j] == tail[j - 1];
        }
      }
    }
  }

  /** The first `n` values produced after `GeometricSequence::new(start, factor)`. */
  ghost function Generated(start: nat, factor: real, n: nat): seq<int>
    requires start >= 1 && factor > 1.0
  {
    Emitted(start as real, factor, n)
  }

  /**
   * A sequence constructed with `start >= 1` and `factor > 1` produces
   * `start` first and then only larger values, each strictly larger than the
   * one before, so no value is produced twice.
   */
  lemma GeneratedFromStart(start: nat, factor: real, n: nat)
    requires start >= 1 && factor > 1.0 && n > 0
    ensures |Generated(start, factor, n)| == n && Generated(start, factor, n)[0] == start
    ensures forall i :: 0 <= i < n ==> Generated(start, factor, n)[i] >= start
    ensures forall i, j :: 0 <= i < n && 0 <= j < n && i != j ==>
              Generated(start, factor, n)[i] != Generated(start, factor, n)[j]
  {
    EmittedStrictlyIncreasing(start as real, factor, n);
    var vs := Generated(start, factor, n);
    forall i | 0 <= i < n
      ensures vs[i] >= start
    {
      if i > 0 {
        assert vs[0] < vs[i];
      }
    }
    forall i, j | 0 <= i < n && 0 <= j < n && i != j
      ensures vs[i] != vs[j]
    {
      if i < j {
        assert vs[i] < vs[j];
      } else {
        assert vs[j] < vs[i];
      }
    }
  }

  /**
   * The iteration-count generator: a real accumulator that is multiplied by
   * `factor` until its truncation moves on to a new count.
   */
  class GeometricSequence {
    var current: real
    var factor: real

    /** The state `Next` requires; from it the inner loop always exits. */
    ghost predicate Valid()
      reads this
    {
      factor > 1.0 && current >= 1.0
    }

    /** `GeometricSequence::new`: the accumulator starts at `start`. */
    constructor (start: nat, factor: real)
      ensures this.current == start as real && this.factor == factor
      ensures Valid() <==> start >= 1 && factor > 1.0
    {
      current := start as real;
      this.factor := factor;
    }

    /**
     * `Iterator::next`: returns the truncation of the accumulator and
     * multiplies the accumulator by the factor until its truncation changes.
     * It never returns `None`, and the factor never changes. The loop runs on
     * a local copy of the accumulator, stored back when the loop exits.
     */
    method Next() returns (r: Option<nat>)
      requires Valid()
      modifies this`current
      ensures Valid() && factor == old(factor)
      ensures r == Some(old(current).Floor)
      ensures current == Settle(r.value, old(current), factor)
      ensures current.Floor > r.value
    {
      var start: nat := current.Floor;
      var f := factor;
      var c := current;
      while c.Floor == start
        invariant c >= 1.0 && start <= c.Floor
        invariant Settle(start, c, f) == Settle(start, old(current), f)
        decreases Steps(start, c, f)
      {
        SettleStep(start, c, f);
        c := c * f;
      }
      current := c;
      r := Some(start);
    }
  }

  //==========================================================================
  // format_number: the integral part
  //==========================================================================

  predicate IsDigit(ch: char)
  {
    '0' <= ch <= '9'
  }

  predicate AllDigits(s: string)
  {
    forall i :: 0 <= i < |s| ==> IsDigit(s[i])
  }

  function DigitChar(d: nat): (ch: char)
    requires d < 10
    ensures IsDigit(ch)
  {
    ('0' as int + d) as char
  }

  function DigitValue(ch: char): (d: nat)
    requires IsDigit(ch)
    ensures d < 10 && DigitChar(d) == ch
  {
    ch as int - '0' as int
  }

  function Pow10(k: nat): (p: nat)
    ensures p >= 1
  {
    if k == 0 then 1 else 10 * Pow10(k - 1)
  }

  /**
   * The rendering `u64::to_string` produces: decimal digits, most significant
   * first, with no sign and no leading zero; zero is "0".
   */
  function DecimalString(n: nat): (s: string)
    ensures 1 <= |s| && AllDigits(s)
    ensures s[0] == '0' ==> n == 0 && s == "0"
    ensures (n == 0 || Pow10(|s| - 1) <= n) && n < Pow10(|s|)
  {
    if n < 10 then [DigitChar(n)] else DecimalString(n / 10) + [DigitChar(n % 10)]
  }

  /** The value a string of decimal digits denotes. */
  function ParseDecimal(s: string): nat
    requires AllDigits(s)
  {
    if s == [] then 0 else 10 * ParseDecimal(s[..|s| - 1]) + DigitValue(s[|s| - 1])
  }

  /** The decimal rendering denotes the number it renders. */
  lemma {:induction false} DecimalRoundTrip(n: nat)
    ensures ParseDecimal(DecimalString(n)) == n
  {
    var s := DecimalString(n);
    if n >= 10 {
      DecimalRoundTrip(n / 10);
      assert s[..|s| - 1] == DecimalString(n / 10);
      assert DigitValue(s[|s| - 1]) == n % 10;
    } else {
      assert s[..0] == [];
    }
  }

  lemma {:induction false} Pow10Monotone(i: nat, j: nat)
    requires i <= j
    ensures Pow10(i) <= Pow10(j)
  {
    if i < j {
      Pow10Monotone(i, j - 1);
    }
  }

  /** Exactly the numbers below 1000 are rendered with at most three digits. */
  lemma FewDigitsIffBelowThousand(n: nat)
    ensures |DecimalString(n)| <= 3 <==> n < 1000
  {
    var s := DecimalString(n);
    if |s| <= 3 {
      Pow10Monotone(|s|, 3);
    } else {
      Pow10Monotone(3, |s| - 1);
      assert n != 0;
    }
  }

  /** The number of separators the grouping puts among `L` digits. */
  function SeparatorsFor(len: nat): nat
  {
    if len == 0 then 0 else (len - 1) / 3
  }

  /**
   * Right-aligned grouping of `digits` in threes: each character is followed
   * by `separator` when the number of characters still to come is a positive
   * multiple of three.
   */
  function Grouped(digits: string, separator: char): string
  {
    if digits == [] then []
    else [digits[0]]
         + (if |digits| > 1 && (|digits| - 1) % 3 == 0 then [separator] else [])
         + Grouped(digits[1..], separator)
  }

  /**
   * The `for` loop of `format_number`: walks the digits of `n` from the
   * right, inserting each at the front of `integral`, and inserts the
   * separator in front before each digit that follows a complete group of
   * three, as counted by `counter`.
   */
  method FormatIntegral(n: nat, separator: char) returns (integral: string)
    ensures integral == Grouped(DecimalString(n), separator)
    ensures |integral| == |DecimalString(n)| + SeparatorsFor(|DecimalString(n)|)
    ensures !IsDigit(separator) ==>
              && RemoveAll(integral, separator) == DecimalString(n)
              && CountOf(integral, separator) == SeparatorsFor(|DecimalString(n)|)
  {
    var digits := DecimalString(n);
    integral := [];
    var counter := 0;
    for k := 0 to |digits|
      invariant integral == Grouped(digits[|digits| - k..], separator)
      invariant counter == if k == 0 then 0 else (k - 1) % 3 + 1
    {
      var digit := digits[|digits| - 1 - k];
      if counter == 3 {
        integral := [separator] + integral;
        counter := 0;
      }
      counter := counter + 1;
      integral := [digit] + integral;
      assert digits[|digits| - (k + 1)..][1..] == digits[|digits| - k..];
    }
    assert digits[0..] == digits;
    GroupedLength(digits, separator);
    if !IsDigit(separator) {
      UngroupRoundTrip(digits, separator);
      SeparatorCount(digits, separator);
    }
  }

  /** `s` with every occurrence of `ch` deleted. */
  function RemoveAll(s: string, ch: char): string
  {
    if s == [] then [] else (if s[0] == ch then [] else [s[0]]) + RemoveAll(s[1..], ch)
  }

  /** The number of occurrences of `ch` in `s`. */
  function CountOf(s: string, ch: char): nat
  {
    if s == [] then 0 else (if s[0] == ch then 1 else 0) + CountOf(s[1..], ch)
  }

  lemma {:induction false} RemoveAllAppend(a: string, b: string, ch: char)
    ensures RemoveAll(a + b, ch) == RemoveAll(a, ch) + RemoveAll(b, ch)
  {
    if a != [] {
      assert (a + b)[1..] == a[1..] + b;
      RemoveAllAppend(a[1..], b, ch);
    } else {
      assert a + b == b;
    }
  }

  lemma {:induction false} CountOfAppend(a: string, b: string, ch: char)
    ensures CountOf(a + b, ch) == CountOf(a, ch) + CountOf(b, ch)
  {
    if a != [] {
      assert (a + b)[1..] == a[1..] + b;
      CountOfAppend(a[1..], b, ch);
    } else {
      assert a + b == b;
    }
  }

  /** Grouping adds exactly `(L - 1) / 3` characters to `L > 0` digits. */
  lemma {:induction false} GroupedLength(digits: string, separator: char)
    ensures |Grouped(digits, separator)| == |digits| + SeparatorsFor(|digits|)
  {
    if digits != [] {
      GroupedLength(digits[1..], separator);
    }
  }

  /**
   * Deleting every separator from the grouped digits gives back the digits,
   * provided the separator is not itself one of them.
   */
  lemma {:induction false} UngroupRoundTrip(digits: string, separator: char)
    requires forall i :: 0 <= i < |digits| ==> digits[i] != separator
    ensures RemoveAll(Grouped(digits, separator), separator) == digits
  {
    if digits != [] {
      var mid: string := if |digits| > 1 && (|digits| - 1) % 3 == 0 then [separator] else [];
      var rest := Grouped(digits[1..], separator);
      UngroupRoundTrip(digits[1..], separator);
      RemoveAllAppend([digits[0]] + mid, rest, separator);
      RemoveAllAppend([digits[0]], mid, separator);
      assert RemoveAll(mid, separator) == [];
      assert RemoveAll([digits[0]], separator) == [digits[0]];
      assert [digits[0]] + digits[1..] == digits;
    }
  }

  /** The grouping inserts exactly `(L - 1) / 3` separators among `L > 0` digits. */
  lemma {:induction false} SeparatorCount(digits: string, separator: char)
    requires forall i :: 0 <= i < |digits| ==> digits[i] != separator
    ensures CountOf(Grouped(digits, separator), separator) == SeparatorsFor(|digits|)
  {
    if digits != [] {
      var mid: string := if |digits| > 1 && (|digits| - 1) % 3 == 0 then [separator] else [];
      var rest := Grouped(digits[1..], separator);
      SeparatorCount(digits[1..], separator);
      CountOfAppend([digits[0]] + mid, rest, separator);
      CountOfAppend([digits[0]], mid, separator);
      assert CountOf([digits[0]], separator) == 0;
      assert CountOf(mid, separator) == |mid|;
    }
  }

  /**
   * A character `q` places from the right of `len` grouped digits (`q - q / 4`
   * is the number of digits it skips) comes from the digits when `q % 4 != 3`.
   */
  lemma DigitIndexInRange(len: nat, q: nat)
    requires q < len + SeparatorsFor(len) && q % 4 != 3
    ensures q - q / 4 < len
  {
    var m, t := (len - 1) / 3, (len - 1) % 3;
    var a, b := q / 4, q % 4;
    assert len - 1 == 3 * m + t;
    assert q == 4 * a + b;
    assert a <= m;
  }

  /**
   * What the grouped rendering of `digits` holds `q` places from its right
   * end: positions `q` with `q % 4 == 3` hold the separator, all others hold
   * the digit `q - q / 4` places from the right end of `digits`.
   */
  function ExpectedAt(digits: string, separator: char, q: nat): char
    requires q < |digits| + SeparatorsFor(|digits|)
  {
    if q % 4 == 3 then separator
    else
      DigitIndexInRange(|digits|, q);
      digits[|digits| - 1 - (q - q / 4)]
  }

  lemma LeadingPosition(len: nat)
    requires len >= 1
    ensures (len - 1 + SeparatorsFor(len)) % 4 != 3
    ensures (len - 1 + SeparatorsFor(len)) - (len - 1 + SeparatorsFor(len)) / 4 == len - 1
  {
    var m, t := (len - 1) / 3, (len - 1) % 3;
    assert len - 1 + SeparatorsFor(len) == 4 * m + t;
  }

  lemma SecondPosition(len: nat)
    requires len > 1 && (len - 1) % 3 == 0
    ensures (len - 1 + SeparatorsFor(len - 1)) % 4 == 3
  {
    var m := (len - 1) / 3;
    assert SeparatorsFor(len - 1) == m - 1;
    assert len - 1 + SeparatorsFor(len - 1) == 4 * (m - 1) + 3;
  }

  /** Dropping the leftmost digit does not move what lies `q` places from the right. */
  lemma ExpectedAtTail(digits: string, separator: char, q: nat)
    requires |digits| >= 1 && q < |digits| - 1 + SeparatorsFor(|digits| - 1)
    ensures q < |digits| + SeparatorsFor(|digits|)
    ensures ExpectedAt(digits[1..], separator, q) == ExpectedAt(digits, separator, q)
  {
    if q % 4 != 3 {
      DigitIndexInRange(|digits| - 1, q);
    }
  }

  /** Exact placement of every character of the grouped rendering. */
  lemma {:induction false} Placement(digits: string, separator: char)
    ensures |Grouped(digits, separator)| == |digits| + SeparatorsFor(|digits|)
    ensures forall p :: 0 <= p < |Grouped(digits, separator)| ==>
              Grouped(digits, separator)[p]
                == ExpectedAt(digits, separator, |Grouped(digits, separator)| - 1 - p)
  {
    GroupedLength(digits, separator);
    if digits != [] {
      var len := |digits|;
      var r := Grouped(digits, separator);
      var mid: string := if len > 1 && (len - 1) % 3 == 0 then [separator] else [];
      var rest := Grouped(digits[1..], separator);
      Placement(digits[1..], separator);
      assert r == [digits[0]] + mid + rest;
      forall p | 0 <= p < |r|
        ensures r[p] == ExpectedAt(digits, separator, |r| - 1 - p)
      {
        var q := |r| - 1 - p;
        if p == 0 {
          LeadingPosition(len);
          assert ExpectedAt(digits, separator, q) == digits[0];
        } else if p < 1 + |mid| {
          SecondPosition(len);
          assert ExpectedAt(digits, separator, q) == separator;
        } else {
          assert r[p] == rest[p - 1 - |mid|];
          assert |rest| - 1 - (p - 1 - |mid|) == q;
          ExpectedAtTail(digits, separator, q);
        }
      }
    }
  }

  /**
   * When the separator is not one of the digits, position `p` of the
   * grouped rendering holds the separator exactly when its distance from the
   * right end is 3 modulo 4.
   */
  lemma SeparatorAt(digits: string, separator: char, p: int)
    requires forall i :: 0 <= i < |digits| ==> digits[i] != separator
    requires 0 <= p < |Grouped(digits, separator)|
    ensures |Grouped(digits, separator)| == |digits| + SeparatorsFor(|digits|)
    ensures Grouped(digits, separator)[p] == separator <==> (|Grouped(digits, separator)| - 1 - p) % 4 == 3
  {
    Placement(digits, separator);
    var r := Grouped(digits, separator);
    var q := |r| - 1 - p;
    assert r[p] == ExpectedAt(digits, separator, q);
    if q % 4 != 3 {
      DigitIndexInRange(|digits|, q);
      assert r[p] == digits[|digits| - 1 - (q - q / 4)];
    }
  }

  /**
   * The grouped rendering of `L > 0` digits neither starts nor ends with a
   * separator, and its leftmost group has one to three digits.
   */
  lemma LeadingGroup(digits: string, separator: char)
    requires |digits| >= 1
    requires forall i :: 0 <= i < |digits| ==> digits[i] != separator
    ensures |Grouped(digits, separator)| == |digits| + SeparatorsFor(|digits|)
    ensures Grouped(digits, separator)[0] != separator
    ensures Grouped(digits, separator)[|Grouped(digits, separator)| - 1] != separator
    ensures var lead := |digits| - 3 * SeparatorsFor(|digits|);
            && 1 <= lead <= 3
            && (forall i :: 0 <= i < lead ==> Grouped(digits, separator)[i] != separator)
            && (lead < |Grouped(digits, separator)| ==> Grouped(digits, separator)[lead] == separator)
  {
    var r := Grouped(digits, separator);
    var len := |digits|;
    GroupedLength(digits, separator);
    var m, t := (len - 1) / 3, (len - 1) % 3;
    assert |r| == 4 * m + t + 1;
    var lead := len - 3 * SeparatorsFor(len);
    assert lead == t + 1;
    forall i | 0 <= i < lead
      ensures r[i] != separator
    {
      SeparatorAt(digits, separator, i);
      assert |r| - 1 - i == 4 * m + (t - i);
    }
    if lead < |r| {
      SeparatorAt(digits, separator, lead);
      assert |r| - 1 - lead == 4 * (m - 1) + 3;
    }
    SeparatorAt(digits, separator, |r| - 1);
  }

  /**
   * Every separator of the grouped rendering is followed by exactly three
   * digits and then either the end or the next separator.
   */
  lemma GroupsOfThree(digits: string, separator: char)
    requires forall i :: 0 <= i < |digits| ==> digits[i] != separator
    ensures forall p :: 0 <= p < |Grouped(digits, separator)| && Grouped(digits, separator)[p] == separator ==>
              && p + 4 <= |Grouped(digits, separator)|
              && Grouped(digits, separator)[p + 1] != separator
              && Grouped(digits, separator)[p + 2] != separator
              && Grouped(digits, separator)[p + 3] != separator
              && (p + 4 == |Grouped(digits, separator)| || Grouped(digits, separator)[p + 4] == separator)
  {
    var r := Grouped(digits, separator);
    forall p | 0 <= p < |r| && r[p] == separator
      ensures p + 4 <= |r| && r[p + 1] != separator && r[p + 2] != separator && r[p + 3] != separator
      ensures p + 4 == |r| || r[p + 4] == separator
    {
      var q := |r| - 1 - p;
      SeparatorAt(digits, separator, p);
      assert q % 4 == 3 && q >= 3;
      SeparatorAt(digits, separator, p + 1);
      SeparatorAt(digits, separator, p + 2);
      SeparatorAt(digits, separator, p + 3);
      if p + 4 < |r| {
        SeparatorAt(digits, separator, p + 4);
      }
    }
  }
}
