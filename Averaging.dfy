/**
 * The arithmetic of `hx711_read_average_raw`: signed frames added in order
 * into an `int64_t` total and divided, C style, by their number.
 */
module Averaging {
  import opened CInt

  /** The total the averaging loop holds after adding the values in order. */
  function Sum(xs: seq<int>): int
  {
    if xs == [] then 0 else Sum(xs[..|xs| - 1]) + xs[|xs| - 1]
  }

  lemma SumAppend(xs: seq<int>, x: int)
    ensures Sum(xs + [x]) == Sum(xs) + x
  {
    assert (xs + [x])[..|xs|] == xs;
  }

  /** `sum / samples` in C: the total divided by the count, truncated toward zero. */
  function Mean(xs: seq<int>): int
    requires |xs| > 0
  {
    TruncDiv(Sum(xs), |xs|)
  }

  function Min(xs: seq<int>): (m: int)
    requires |xs| > 0
    ensures m in xs
    ensures forall i :: 0 <= i < |xs| ==> m <= xs[i]
  {
    if |xs| == 1 then xs[0]
    else
      var rest := Min(xs[1..]);
      if xs[0] <= rest then xs[0] else rest
  }

  function Max(xs: seq<int>): (m: int)
    requires |xs| > 0
    ensures m in xs
    ensures forall i :: 0 <= i < |xs| ==> xs[i] <= m
  {
    if |xs| == 1 then xs[0]
    else
      var rest := Max(xs[1..]);
      if xs[0] >= rest then xs[0] else rest
  }

  /** n values, each between lo and hi, add up to between n*lo and n*hi. */
  lemma {:induction false} SumBetween(xs: seq<int>, lo: int, hi: int)
    requires forall i :: 0 <= i < |xs| ==> lo <= xs[i] <= hi
    ensures |xs| * lo <= Sum(xs) <= |xs| * hi
  {
    if xs != [] {
      var n := |xs| - 1;
      SumBetween(xs[..n], lo, hi);
      assert |xs| * lo == n * lo + lo && |xs| * hi == n * hi + hi;
    }
  }

  /**
   * Fewer than 2^31 frames (the range of the `int` count), each in the
   * 24-bit signed range, add up to well inside the `int64_t` range: the
   * total never overflows.
   */
  lemma SumFitsInt64(xs: seq<int>)
    requires |xs| < 0x8000_0000
    requires forall i :: 0 <= i < |xs| ==> -0x80_0000 <= xs[i] < 0x80_0000
    ensures -0x8000_0000_0000_0000 < -0x40_0000_0000_0000 <= Sum(xs) < 0x40_0000_0000_0000 < 0x8000_0000_0000_0000
  {
    SumBetween(xs, -0x80_0000, 0x7F_FFFF);
    MulMonotone(|xs|, 0x8000_0000, 0x80_0000);
  }

  /** The mean lies between the smallest and the largest value averaged. */
  lemma MeanWithinRange(xs: seq<int>)
    requires |xs| > 0
    ensures Min(xs) <= Mean(xs) <= Max(xs)
  {
    SumBetween(xs, Min(xs), Max(xs));
    TruncDivBetween(Sum(xs), |xs|, Min(xs), Max(xs));
  }

  /** Averaging a constant signal returns that constant exactly. */
  lemma MeanOfConstant(xs: seq<int>, v: int)
    requires |xs| > 0
    requires forall i :: 0 <= i < |xs| ==> xs[i] == v
    ensures Mean(xs) == v
  {
    SumBetween(xs, v, v);
    TruncDivBetween(Sum(xs), |xs|, v, v);
  }
}
