/** compute_features: the per-pixel fusion weight written into channel 3,
    the product of a saturation term and a well-exposedness term. expf is
    passed in as an uninterpreted function. */
module Features {
  import opened Common
  import opened Pixels
  import opened ToneCurve

  /** The floor of the saturation denominator (1e-4). */
  const SatFloor: real := 0.0001
  /** The well-exposedness width `var` (0.4). */
  const ExposureWidth: real := 0.4

  function Max3(r: real, g: real, b: real): real { MaxReal(r, MaxReal(g, b)) }
  function Min3(r: real, g: real, b: real): real { MinReal(r, MinReal(g, b)) }

  /** `sat = 0.1 + 5 (max - min) / MAX(1e-4, max)` over the colour channels.
      It is never below 0.1, and at most 5.1 when no channel is negative. */
  function Saturation(r: real, g: real, b: real): (s: real)
    ensures s >= 0.1
    ensures r >= 0.0 && g >= 0.0 && b >= 0.0 ==> s <= 5.1
  {
    var hi := Max3(r, g, b);
    var lo := Min3(r, g, b);
    var d := MaxReal(SatFloor, hi);
    QuotientBounds(hi - lo, d, r >= 0.0 && g >= 0.0 && b >= 0.0);
    0.1 + 5.0 * ((hi - lo) / d)
  }

  lemma QuotientBounds(x: real, d: real, belowD: bool)
    requires 0.0 <= x && d > 0.0
    requires belowD ==> x <= d
    ensures 0.0 <= x / d
    ensures belowD ==> x / d <= 1.0
  {
    assert x / d * d == x;
  }

  /** The largest distance of a colour channel from mid-grey 0.5. */
  function GreyDistance(r: real, g: real, b: real): (v: real)
    ensures v >= 0.0
    ensures v == Abs(r - 0.5) || v == Abs(g - 0.5) || v == Abs(b - 0.5)
    ensures v >= Abs(r - 0.5) && v >= Abs(g - 0.5) && v >= Abs(b - 0.5)
  {
    var v0 := Abs(r - 0.5);
    var v1 := MaxReal(Abs(g - 0.5), v0);
    MaxReal(Abs(b - 0.5), v1)
  }

  /** The argument `-v^2 / var^2` handed to expf; never positive. */
  function ExposednessArg(v: real): (t: real)
    ensures t <= 0.0
  {
    assert v * v >= 0.0;
    -(v * v) / (ExposureWidth * ExposureWidth)
  }

  /** `0.1 + expf(-v^2 / var^2)` with `v` the grey distance. */
  function Exposedness(r: real, g: real, b: real, expf: real -> real): real {
    0.1 + expf(ExposednessArg(GreyDistance(r, g, b)))
  }

  function FeatureWeight(p: Pixel, expf: real -> real): real {
    Saturation(p.r, p.g, p.b) * Exposedness(p.r, p.g, p.b, expf)
  }

  /** The weight depends on the colour channels only. */
  lemma FeatureWeightColourOnly(p: Pixel, q: Pixel, expf: real -> real)
    requires SameColour(p, q)
    ensures FeatureWeight(p, expf) == FeatureWeight(q, expf)
  {
  }

  lemma ProductBounds(s: real, e: real, sHi: real, eHi: real)
    requires 0.1 <= s <= sHi && 0.1 <= e <= eHi
    ensures 0.01 <= s * e <= sHi * eHi
  {
    assert s * e - 0.1 * 0.1 == (s - 0.1) * e + 0.1 * (e - 0.1);
    assert (s - 0.1) * e >= 0.0;
    assert sHi * eHi - s * e == (sHi - s) * eHi + s * (eHi - e);
    assert (sHi - s) * eHi >= 0.0;
    assert s * (eHi - e) >= 0.0;
  }

  /** With expf mapping non-positive arguments into [0, 1], the weight is at
      least 0.01, and at most 5.61 when no colour channel is negative. */
  lemma FeatureWeightBounds(p: Pixel, expf: real -> real)
    requires forall t :: t <= 0.0 ==> 0.0 <= expf(t) <= 1.0
    ensures FeatureWeight(p, expf) >= 0.01
    ensures p.r >= 0.0 && p.g >= 0.0 && p.b >= 0.0 ==> FeatureWeight(p, expf) <= 5.61
  {
    var e := Exposedness(p.r, p.g, p.b, expf);
    assert 0.1 <= e <= 1.1;
    var s := Saturation(p.r, p.g, p.b);
    if p.r >= 0.0 && p.g >= 0.0 && p.b >= 0.0 {
      ProductBounds(s, e, 5.1, 1.1);
    } else {
      ProductBounds(s, e, s, 1.1);
    }
  }

  /** compute_features: colour channels are left alone and channel 3
      becomes saturation times well-exposedness of the pixel's colour. */
  function ComputeFeatures(col: Image, wd: nat, ht: nat, expf: real -> real): (out: Image)
    requires Shaped(col, wd, ht)
    ensures Shaped(out, wd, ht)
    ensures forall j, i :: 0 <= j < ht && 0 <= i < wd ==>
      SameColour(out[j][i], col[j][i]) && out[j][i].a == FeatureWeight(col[j][i], expf)
  {
    seq(ht, j requires 0 <= j < ht => seq(wd, i requires 0 <= i < wd =>
      var p := col[j][i];
      Pixel(p.r, p.g, p.b, FeatureWeight(p, expf))))
  }

  /** Channel 3 of the buffer apply_ev_and_curve writes into is never read:
      after compute_features the result is the same whatever the buffer
      held before. */
  lemma FeaturesIgnorePriorAlpha(input: Image, prev1: Image, prev2: Image, wd: nat, ht: nat,
                                 mul: real, table: seq<real>, coeffs: Option<Coeffs>,
                                 evalExp: (Coeffs, real) -> real, expf: real -> real)
    requires Shaped(input, wd, ht) && Shaped(prev1, wd, ht) && Shaped(prev2, wd, ht)
    requires |table| == TableSize
    ensures ComputeFeatures(ApplyEvAndCurve(input, prev1, wd, ht, mul, table, coeffs, evalExp), wd, ht, expf)
         == ComputeFeatures(ApplyEvAndCurve(input, prev2, wd, ht, mul, table, coeffs, evalExp), wd, ht, expf)
  {
    var m1 := ApplyEvAndCurve(input, prev1, wd, ht, mul, table, coeffs, evalExp);
    var m2 := ApplyEvAndCurve(input, prev2, wd, ht, mul, table, coeffs, evalExp);
    var x := ComputeFeatures(m1, wd, ht, expf);
    var y := ComputeFeatures(m2, wd, ht, expf);
    forall j, i | 0 <= j < ht && 0 <= i < wd
      ensures x[j][i] == y[j][i]
    {
      FeatureWeightColourOnly(m1[j][i], m2[j][i], expf);
    }
    ImageExt(x, y, wd, ht);
  }
}
