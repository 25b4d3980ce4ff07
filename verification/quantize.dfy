/** Rounding of a coordinate to two decimal places: `Math.round(v * 100) / 100`.
    JavaScript's `Math.round(t)` is `floor(t + 1/2)`, so a value exactly halfway
    between two hundredths goes to the larger one (towards +infinity), for negative
    values as well as positive ones. Coordinates are exact reals here. */
module Quantize {

  /** True when v is an integer multiple of 1/100. */
  predicate IsHundredth(v: real) {
    (v * 100.0).Floor as real == v * 100.0
  }

  /** The nearest multiple of 1/100, halves rounded up. */
  function RoundToTwoDecimalPlaces(v: real): (r: real)
    ensures IsHundredth(r)
    ensures v - 0.005 < r <= v + 0.005
  {
    ((v * 100.0 + 0.5).Floor as real) / 100.0
  }

  /** The values rounding leaves alone are exactly the hundredths. */
  lemma FixedPoints(v: real)
    ensures RoundToTwoDecimalPlaces(v) == v <==> IsHundredth(v)
  {
    if IsHundredth(v) {
      var n := (v * 100.0).Floor;
      assert (n as real + 0.5).Floor == n;
      assert v * 100.0 + 0.5 == n as real + 0.5;
    }
  }

  /** Rounding twice is rounding once. */
  lemma RoundIdempotent(v: real)
    ensures RoundToTwoDecimalPlaces(RoundToTwoDecimalPlaces(v)) == RoundToTwoDecimalPlaces(v)
  {
    FixedPoints(RoundToTwoDecimalPlaces(v));
  }

  /** Rounding never reverses the order of two values. */
  lemma RoundMonotone(a: real, b: real)
    requires a <= b
    ensures RoundToTwoDecimalPlaces(a) <= RoundToTwoDecimalPlaces(b)
  {
    var ta, tb := a * 100.0 + 0.5, b * 100.0 + 0.5;
    assert ta <= tb;
    assert ta.Floor <= tb.Floor by {
      assert ta.Floor as real <= ta <= tb < tb.Floor as real + 1.0;
    }
    assert ta.Floor as real / 100.0 <= tb.Floor as real / 100.0;
  }

  /** A value halfway between the hundredths n/100 and (n+1)/100 rounds to (n+1)/100,
      whatever the sign of n: halves are not rounded away from zero. */
  lemma HalvesRoundUp(n: int)
    ensures RoundToTwoDecimalPlaces((2 * n + 1) as real / 200.0) == (n + 1) as real / 100.0
  {
    var v := (2 * n + 1) as real / 200.0;
    assert v * 100.0 + 0.5 == (n + 1) as real;
  }

  /** Two values a hair's breadth either side of the midpoint 1.005 round to different
      hundredths, so they fall in different layers. */
  lemma MidpointStraddlersSeparate()
    ensures RoundToTwoDecimalPlaces(1.004999) == 1.0
    ensures RoundToTwoDecimalPlaces(1.005001) == 1.01
  {
    assert (1.004999 * 100.0 + 0.5).Floor == 100;
    assert (1.005001 * 100.0 + 0.5).Floor == 101;
  }
}
