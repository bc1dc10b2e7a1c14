/** Sample statistics over real numbers (pandas `mean`, `std` with its default
    n-1 denominator, `count`). Dafny's reals have no square root, so the one
    numpy supplies is a parameter `sqrt`, characterised by `KeepsSign` and
    `IsSqrt`. */
module Stats {
  import opened Wrappers

  /** `sqrt` is non-negative on non-negative reals and positive on positive
      ones: all that the sign of a z-score depends on. */
  ghost predicate KeepsSign(sqrt: real -> real) {
    forall x :: 0.0 <= x ==> 0.0 <= sqrt(x) && (0.0 < x ==> 0.0 < sqrt(x))
  }

  /** `sqrt` returns the non-negative square root of every non-negative real. */
  ghost predicate IsSqrt(sqrt: real -> real) {
    KeepsSign(sqrt) && forall x :: 0.0 <= x ==> sqrt(x) * sqrt(x) == x
  }

  function SumReal(xs: seq<real>): real {
    if xs == [] then 0.0 else SumReal(xs[..|xs| - 1]) + xs[|xs| - 1]
  }

  /** The arithmetic mean; `None` (NaN) for no samples. */
  function Mean(xs: seq<real>): (m: Option<real>)
    ensures m.None? <==> xs == []
    ensures m.Some? ==> m.value * (|xs| as real) == SumReal(xs)
  {
    if xs == [] then None else Some(SumReal(xs) / (|xs| as real))
  }

  /** `part / whole` as a real, 0 for an empty whole (a proportion). */
  function Fraction(part: nat, whole: nat): (r: real)
    requires part <= whole
    ensures 0.0 <= r <= 1.0
    ensures whole > 0 ==> r == (part as real) / (whole as real)
  {
    if whole == 0 then 0.0 else (part as real) / (whole as real)
  }

  lemma SquareSign(d: real)
    ensures d * d >= 0.0
  {
    if d < 0.0 {
      assert d * d == (-d) * (-d);
    }
  }

  /** The sum of squared deviations from `m`. */
  function SquaredDeviations(xs: seq<real>, m: real): (d: real)
    ensures d >= 0.0
  {
    if xs == [] then 0.0
    else
      var d := xs[|xs| - 1] - m;
      SquareSign(d);
      SquaredDeviations(xs[..|xs| - 1], m) + d * d
  }

  /** The sample variance, the squared deviations over `n - 1`, for at least
      two samples. */
  function SampleVariance(xs: seq<real>): (v: real)
    requires |xs| >= 2
    ensures v >= 0.0
    ensures v * ((|xs| - 1) as real) == SquaredDeviations(xs, Mean(xs).value)
  {
    var d := SquaredDeviations(xs, Mean(xs).value);
    var n := (|xs| - 1) as real;
    QuotientNonNegative(d, n);
    d / n
  }

  /** The sample standard deviation; `None` (NaN) for fewer than two samples. */
  function SampleStd(xs: seq<real>, sqrt: real -> real): (sd: Option<real>)
    ensures sd.None? <==> |xs| < 2
  {
    if |xs| < 2 then None else Some(sqrt(SampleVariance(xs)))
  }

  lemma QuotientNonNegative(a: real, b: real)
    requires a >= 0.0 && b > 0.0
    ensures a / b >= 0.0
  {
  }

  lemma SqrtOf(sqrt: real -> real, v: real)
    requires IsSqrt(sqrt) && v >= 0.0
    ensures sqrt(v) >= 0.0 && sqrt(v) * sqrt(v) == v
  {
  }

  /** With a true square root the sample standard deviation is non-negative
      and squares to the sample variance. */
  lemma SampleStdSquares(xs: seq<real>, sqrt: real -> real)
    requires IsSqrt(sqrt) && |xs| >= 2
    ensures SampleStd(xs, sqrt).value >= 0.0
    ensures SampleStd(xs, sqrt).value * SampleStd(xs, sqrt).value == SampleVariance(xs)
  {
    SqrtOf(sqrt, SampleVariance(xs));
  }

  /** The sum of `n` samples lying in `[lo, hi]` lies in `[n lo, n hi]`. */
  lemma {:induction false} SumBounds(xs: seq<real>, lo: real, hi: real)
    requires forall i :: 0 <= i < |xs| ==> lo <= xs[i] <= hi
    ensures (|xs| as real) * lo <= SumReal(xs) <= (|xs| as real) * hi
  {
    if xs != [] {
      SumBounds(xs[..|xs| - 1], lo, hi);
    }
  }

  /** The mean of samples lying in `[lo, hi]` lies in `[lo, hi]`. */
  lemma MeanBounds(xs: seq<real>, lo: real, hi: real)
    requires xs != []
    requires forall i :: 0 <= i < |xs| ==> lo <= xs[i] <= hi
    ensures lo <= Mean(xs).value <= hi
  {
    SumBounds(xs, lo, hi);
    var n := |xs| as real;
    var m := Mean(xs).value;
    assert m * n == SumReal(xs);
  }
}
