/** Counting events in time intervals, and 64-bit saturating arithmetic on clocks. */
module Intervals {
  import opened Text

  function Clamp(x: int): int {
    if x < I64_MIN then I64_MIN else if x > I64_MAX then I64_MAX else x
  }

  /** `i64::saturating_sub`. */
  function SatSub(a: int, b: int): int {
    Clamp(a - b)
  }

  /** `i64::saturating_add`. */
  function SatAdd(a: int, b: int): int {
    Clamp(a + b)
  }

  /** The exact result where 64 bits hold it, the nearest bound where they do not. */
  lemma SaturatesExactly(a: int, b: int)
    ensures SatSub(a, b) == if a - b < -9223372036854775808 then -9223372036854775808
                            else if a - b > 9223372036854775807 then 9223372036854775807 else a - b
    ensures SatAdd(a, b) == SatSub(a, -b)
  {}

  /** Times never decrease. */
  predicate Sorted(times: seq<int>) {
    forall i, j :: 0 <= i <= j < |times| ==> times[i] <= times[j]
  }

  /** How many of the times lie in the half-open interval from `a` to `b`. */
  function CountIn(times: seq<int>, a: int, b: int): nat {
    if times == [] then 0
    else
      var n := |times| - 1;
      CountIn(times[..n], a, b) + if a <= times[n] < b then 1 else 0
  }

  /** Any `m + 1` consecutive events span at least `length`. */
  predicate Spread(times: seq<int>, m: nat, length: int) {
    forall i :: 0 <= i && i + m < |times| ==> times[i + m] >= times[i] + length
  }

  function CountBelow(times: seq<int>, x: int): (c: nat)
    ensures c <= |times|
  {
    if times == [] then 0
    else
      var n := |times| - 1;
      CountBelow(times[..n], x) + if times[n] < x then 1 else 0
  }

  lemma {:induction false} BelowIsPrefix(times: seq<int>, x: int)
    requires Sorted(times)
    ensures forall i :: 0 <= i < CountBelow(times, x) ==> times[i] < x
    ensures forall i :: CountBelow(times, x) <= i < |times| ==> times[i] >= x
  {
    if times != [] {
      var n := |times| - 1;
      BelowIsPrefix(times[..n], x);
      var c := CountBelow(times[..n], x);
      if c < n {
        assert times[..n][c] == times[c] <= times[n];
      }
      forall i | 0 <= i < CountBelow(times, x) ensures times[i] < x {
        if i < c { assert times[..n][i] == times[i]; }
      }
      forall i | CountBelow(times, x) <= i < |times| ensures times[i] >= x {
        if i < n { assert times[..n][i] == times[i]; }
      }
    }
  }

  lemma {:induction false} CountSplits(times: seq<int>, a: int, b: int)
    requires a <= b
    ensures CountIn(times, a, b) == CountBelow(times, b) - CountBelow(times, a)
  {
    if times != [] {
      CountSplits(times[..|times| - 1], a, b);
    }
  }

  /** Spread events put at most `m` of them into any interval of the given length. */
  lemma SpreadBoundsCount(times: seq<int>, m: nat, a: int, length: int)
    requires Sorted(times) && Spread(times, m, length) && length >= 0
    ensures CountIn(times, a, a + length) <= m
  {
    CountSplits(times, a, a + length);
    BelowIsPrefix(times, a);
    BelowIsPrefix(times, a + length);
    var lo, hi := CountBelow(times, a), CountBelow(times, a + length);
    if lo + m < |times| {
      assert times[lo + m] >= times[lo] + length;
    }
  }

  lemma SortedSnoc(times: seq<int>, t: int)
    requires Sorted(times) && (times != [] ==> times[|times| - 1] <= t)
    ensures Sorted(times + [t])
  {}

  lemma SpreadSnoc(times: seq<int>, t: int, m: nat, length: int)
    requires Spread(times, m, length)
    requires m >= 1 && (|times| >= m ==> t >= times[|times| - m] + length)
    ensures Spread(times + [t], m, length)
  {}

  lemma {:induction false} AllCounted(times: seq<int>, a: int, b: int)
    requires forall i :: 0 <= i < |times| ==> a <= times[i] < b
    ensures CountIn(times, a, b) == |times|
  {
    if times != [] { AllCounted(times[..|times| - 1], a, b); }
  }

  /** The last `m` times are counted when they lie in the interval. */
  lemma {:induction false} LastAreCounted(times: seq<int>, m: nat, a: int, b: int)
    requires m <= |times| && forall i :: |times| - m <= i < |times| ==> a <= times[i] < b
    ensures CountIn(times, a, b) >= m
  {
    if m > 0 {
      var n := |times| - 1;
      forall i | n - (m - 1) <= i < n ensures a <= times[..n][i] < b { assert times[..n][i] == times[i]; }
      LastAreCounted(times[..n], m - 1, a, b);
    }
  }
}
