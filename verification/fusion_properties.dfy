/** What exposure fusion guarantees: the normalisation always divides
    when expf is bounded, the collapse of a pyramid blended from copies of
    one exposure returns that exposure, and with zero stops between the
    exposures fusion reduces to the fast path. */
module FusionProperties {
  import opened Pixels
  import opened ToneCurve
  import opened Pyramid
  import opened Levels
  import opened Fusion

  lemma AtLeastOneTimes(e: real, a: real)
    requires e >= 1.0 && a >= 0.0
    ensures e * a >= a
  {
    assert e * a - a == (e - 1.0) * a;
  }

  /** With expf bounded, every weight of every level of an exposure's
      pyramid is at least 0.8 * 0.01. */
  lemma {:induction false} ExposureWeightAtLeast(input: Image, wd: nat, ht: nat, piece: Piece, ext: Externals,
                              n: nat, e: nat, k: nat, j: int, i: int)
    requires wd >= 4 && ht >= 4 && Shaped(input, wd, ht) && |piece.table| == TableSize
    requires n >= 1 && Reducible(wd, ht, n) && k < n
    requires 0 <= j < LevelSize(ht, k) && 0 <= i < LevelSize(wd, k)
    requires ExpBounded(ext)
    ensures Contributions(ExposurePyramid(input, wd, ht, piece, ext, n, e), wd, ht, n)[k][j][i].a
         >= ContrastBias * 0.01
  {
    var base: Image := ExposureBase(input, wd, ht, piece, ext, e);
    ExposureBaseProperties(input, wd, ht, piece, ext, e);
    LevelAlphaAtLeast(base, wd, ht, n, ContrastBias * 0.01, k);
    ContributionWeight(ExposurePyramid(input, wd, ht, piece, ext, n, e), wd, ht, n, k, j, i);
  }

  /** Weights above the threshold in one or more contributions blend to a
      weight above it. */
  lemma {:induction false} BlendAboveThreshold(cs: seq<seq<Image>>, wd: nat, ht: nat, n: nat,
                                               k: nat, j: int, i: int, m: real)
    requires wd >= 1 && ht >= 1 && AllPyramidal(cs, wd, ht, n) && k < n
    requires 0 <= j < LevelSize(ht, k) && 0 <= i < LevelSize(wd, k)
    requires |cs| >= 1 && m > WeightThreshold
    requires forall e :: 0 <= e < |cs| ==> cs[e][k][j][i].a >= m
    ensures Blend(cs, wd, ht, n)[k][j][i].a > WeightThreshold
  {
    WeightSumAtLeast(cs, wd, ht, n, k, j, i, m);
    BlendWeightIsWeightSum(cs, wd, ht, n, k, j, i);
  }

  /** With expf bounded and at least one exposure, every blended pixel of
      every level carries a summed weight above 1e-8, so the guarded
      division of the normalisation always takes place. */
  lemma {:induction false} NormalizationAlwaysDivides(input: Image, wd: nat, ht: nat, piece: Piece, ext: Externals,
                                   n: nat, k: nat, j: int, i: int)
    requires wd >= 4 && ht >= 4 && Shaped(input, wd, ht) && |piece.table| == TableSize
    requires n >= 1 && Reducible(wd, ht, n) && k < n
    requires 0 <= j < LevelSize(ht, k) && 0 <= i < LevelSize(wd, k)
    requires ExpBounded(ext) && piece.exposureFusion >= 0
    ensures Blend(ExposureContributions(input, wd, ht, piece, ext, n), wd, ht, n)[k][j][i].a > WeightThreshold
  {
    var cs: seq<seq<Image>> := ExposureContributions(input, wd, ht, piece, ext, n);
    var m := ContrastBias * 0.01;
    forall e | 0 <= e < |cs|
      ensures cs[e][k][j][i].a >= m
    {
      ExposureWeightAtLeast(input, wd, ht, piece, ext, n, e, k, j, i);
    }
    BlendAboveThreshold(cs, wd, ht, n, k, j, i, m);
  }

  /** A weight above the threshold stays above it when multiplied by a
      positive count. */
  lemma AboveThresholdTimes(e: nat, a: real)
    requires e >= 1 && a > WeightThreshold
    ensures e as real * a > WeightThreshold
  {
    AtLeastOneTimes(e as real, a);
  }

  lemma TimesWeighted(e: real, a: real, p: Pixel)
    ensures Times(e, Weighted(a, p)) == Weighted(e * a, p)
  {
    assert e * (a * p.r) == (e * a) * p.r;
    assert e * (a * p.g) == (e * a) * p.g;
    assert e * (a * p.b) == (e * a) * p.b;
  }

  /** Pixel (j, i) of an exposure's level-k contribution is its band
      weighted by its Gaussian weight. */
  lemma {:induction false} ContributionPixel(pyr: seq<Image>, wd: nat, ht: nat, n: nat, k: nat, j: int, i: int)
    requires wd >= 1 && ht >= 1 && Pyramidal(pyr, wd, ht, n) && Reducible(wd, ht, n) && k < n
    requires 0 <= j < LevelSize(ht, k) && 0 <= i < LevelSize(wd, k)
    ensures Contributions(pyr, wd, ht, n)[k][j][i]
         == Weighted(pyr[k][j][i].a, Laplacian(pyr, wd, ht, n, k)[j][i])
  {
    assert Contributions(pyr, wd, ht, n)[k] == Contribution(pyr, wd, ht, n, k);
  }

  /** A blended pixel of copies of one contribution whose weight exceeds
      the threshold normalises to the weighted colour. */
  lemma {:induction false} NormalizedBlendPixel(cs: seq<seq<Image>>, c: seq<Image>, wd: nat, ht: nat, n: nat,
                             k: nat, j: int, i: int, a: real, p: Pixel)
    requires wd >= 1 && ht >= 1 && Pyramidal(c, wd, ht, n) && k < n
    requires |cs| >= 1 && forall e :: 0 <= e < |cs| ==> cs[e] == c
    requires 0 <= j < LevelSize(ht, k) && 0 <= i < LevelSize(wd, k)
    requires a > WeightThreshold && c[k][j][i] == Weighted(a, p)
    ensures AllPyramidal(cs, wd, ht, n)
    ensures SameColour(NormalizePixel(Blend(cs, wd, ht, n)[k][j][i]), p)
  {
    var e := |cs| as real;
    var w := e * a;
    assert w > WeightThreshold by {
      AboveThresholdTimes(|cs|, a);
    }
    BlendIdentical(cs, c, wd, ht, n, k, j, i);
    var blended := Blend(cs, wd, ht, n)[k][j][i];
    assert blended == Times(e, Weighted(a, p));
    TimesWeighted(e, a, p);
    assert blended == Weighted(w, p);
    NormalizeWeighted(w, p);
  }

  /** Normalised level k of `comb` has the colour of band k of `pyr`. */
  predicate BandRestored(comb: seq<Image>, pyr: seq<Image>, wd: nat, ht: nat, n: nat, k: nat)
    requires wd >= 1 && ht >= 1 && Reducible(wd, ht, n) && k < n
    requires Pyramidal(comb, wd, ht, n) && Pyramidal(pyr, wd, ht, n)
  {
    var base := NormalizeLevel(comb[k], LevelSize(wd, k), LevelSize(ht, k));
    var lap := Laplacian(pyr, wd, ht, n, k);
    forall j, i :: 0 <= j < LevelSize(ht, k) && 0 <= i < LevelSize(wd, k) ==>
      SameColour(base[j][i], lap[j][i])
  }

  /** At level k, normalising a blend of copies of one exposure gives the
      exposure's band, when all its weights exceed the threshold. */
  lemma {:induction false} NormalizedBand(cs: seq<seq<Image>>, pyr: seq<Image>, wd: nat, ht: nat,
                                          n: nat, m: real, k: nat)
    requires wd >= 1 && ht >= 1 && Reducible(wd, ht, n) && Pyramidal(pyr, wd, ht, n) && k < n
    requires |cs| >= 1 && AllPyramidal(cs, wd, ht, n)
    requires forall e :: 0 <= e < |cs| ==> cs[e] == Contributions(pyr, wd, ht, n)
    requires m > WeightThreshold && AlphaAtLeast(pyr[k], LevelSize(wd, k), LevelSize(ht, k), m)
    ensures BandRestored(Blend(cs, wd, ht, n), pyr, wd, ht, n, k)
  {
    var w, h := LevelSize(wd, k), LevelSize(ht, k);
    var base: Image := NormalizeLevel(Blend(cs, wd, ht, n)[k], w, h);
    var lap: Image := Laplacian(pyr, wd, ht, n, k);
    var c: seq<Image> := Contributions(pyr, wd, ht, n);
    forall j, i | 0 <= j < h && 0 <= i < w
      ensures SameColour(base[j][i], lap[j][i])
    {
      ContributionPixel(pyr, wd, ht, n, k, j, i);
      NormalizedBlendPixel(cs, c, wd, ht, n, k, j, i, pyr[k][j][i].a, lap[j][i]);
    }
  }

  /** One collapse step on a level: a normalised band equal in colour to
      `g - v`, plus an expansion equal in colour to `v`, is `g` in colour. */
  lemma CollapseLevel(rec: Image, base: Image, up: Image, upG: Image, g: Image, lap: Image,
                      w: nat, h: nat)
    requires Shaped(rec, w, h) && Shaped(base, w, h) && Shaped(up, w, h)
    requires Shaped(upG, w, h) && Shaped(g, w, h) && Shaped(lap, w, h)
    requires forall j, i :: 0 <= j < h && 0 <= i < w ==> rec[j][i] == AddColour(base[j][i], up[j][i])
    requires forall j, i :: 0 <= j < h && 0 <= i < w ==> SameColour(base[j][i], lap[j][i])
    requires forall j, i :: 0 <= j < h && 0 <= i < w ==> lap[j][i] == Sub(g[j][i], upG[j][i])
    requires SameColourImage(up, upG, w, h)
    ensures SameColourImage(rec, g, w, h)
  {
  }

  /** One level of the collapse: if the normalised level k of `comb` has
      the colour of the band of `pyr`, and the collapse of level k+1 has the
      colour of Gaussian level k+1, then the collapse of level k has the
      colour of Gaussian level k. */
  lemma ReconstructLevel(comb: seq<Image>, pyr: seq<Image>, wd: nat, ht: nat, n: nat, k: nat)
    requires wd >= 1 && ht >= 1 && Reducible(wd, ht, n) && k < n
    requires Pyramidal(comb, wd, ht, n) && Pyramidal(pyr, wd, ht, n)
    requires BandRestored(comb, pyr, wd, ht, n, k)
    requires k < n - 1 ==> SameColourImage(Reconstruct(comb, wd, ht, n, k + 1), pyr[k + 1],
                                           LevelSize(wd, k + 1), LevelSize(ht, k + 1))
    ensures SameColourImage(Reconstruct(comb, wd, ht, n, k), pyr[k], LevelSize(wd, k), LevelSize(ht, k))
  {
    var w, h := LevelSize(wd, k), LevelSize(ht, k);
    var lap: Image := Laplacian(pyr, wd, ht, n, k);
    var base: Image := NormalizeLevel(comb[k], w, h);
    var rec: Image := Reconstruct(comb, wd, ht, n, k);
    if k < n - 1 {
      var next: Image := Reconstruct(comb, wd, ht, n, k + 1);
      GaussExpandColourOnly(next, pyr[k + 1], w, h);
      var up: Image := GaussExpand(next, w, h);
      var upPyr: Image := GaussExpand(pyr[k + 1], w, h);
      ReconstructStep(comb, wd, ht, n, k);
      CollapseLevel(rec, base, up, upPyr, pyr[k], lap, w, h);
    }
  }

  /** If every normalised level of `comb` from k on has the colour of the
      band of `pyr`, collapsing `comb` from level k gives the colour of
      Gaussian level k: the reconstruction inverts the Laplacian
      decomposition. */
  lemma {:induction false} CollapseRestores(comb: seq<Image>, pyr: seq<Image>, wd: nat, ht: nat,
                                            n: nat, k: nat)
    requires wd >= 1 && ht >= 1 && Reducible(wd, ht, n) && k < n
    requires Pyramidal(comb, wd, ht, n) && Pyramidal(pyr, wd, ht, n)
    requires forall l: nat :: k <= l < n ==> BandRestored(comb, pyr, wd, ht, n, l)
    ensures SameColourImage(Reconstruct(comb, wd, ht, n, k), pyr[k], LevelSize(wd, k), LevelSize(ht, k))
    decreases n - k
  {
    if k < n - 1 {
      CollapseRestores(comb, pyr, wd, ht, n, k + 1);
    }
    ReconstructLevel(comb, pyr, wd, ht, n, k);
  }

  /** Blending copies of one exposure whose weights exceed the threshold
      and collapsing the result gives back, at every level, the colour of
      the exposure's Gaussian level. */
  lemma ReconstructIdentical(cs: seq<seq<Image>>, pyr: seq<Image>, wd: nat, ht: nat,
                             n: nat, m: real, k: nat)
    requires wd >= 1 && ht >= 1 && Reducible(wd, ht, n) && Pyramidal(pyr, wd, ht, n) && k < n
    requires |cs| >= 1 && AllPyramidal(cs, wd, ht, n)
    requires forall e :: 0 <= e < |cs| ==> cs[e] == Contributions(pyr, wd, ht, n)
    requires m > WeightThreshold
    requires forall l: nat :: l < n ==> AlphaAtLeast(pyr[l], LevelSize(wd, l), LevelSize(ht, l), m)
    ensures SameColourImage(Reconstruct(Blend(cs, wd, ht, n), wd, ht, n, k), pyr[k],
                            LevelSize(wd, k), LevelSize(ht, k))
  {
    var comb: seq<Image> := Blend(cs, wd, ht, n);
    forall l: nat | k <= l < n
      ensures BandRestored(comb, pyr, wd, ht, n, l)
    {
      NormalizedBand(cs, pyr, wd, ht, n, m, l);
    }
    CollapseRestores(comb, pyr, wd, ht, n, k);
  }

  /** With no stops between the exposures every exposure is the plain
      base-curve image, so exposure fusion returns exactly the fast path:
      given powf(2, 0) = 1 and expf bounded on non-positive arguments. */
  lemma {:induction false} ZeroStopsFusionIsFastPath(input: Image, wd: nat, ht: nat, scale: real, iscale: real,
                                  piece: Piece, ext: Externals)
    requires Shaped(input, wd, ht) && |piece.table| == TableSize && iscale != 0.0
    requires wd >= 4 && ht >= 4 && LevelCount(wd, ht, Radius(wd, scale, iscale)) >= 2
    requires piece.exposureFusion >= 1 && piece.exposureStops == 0.0
    requires ext.powf(2.0, 0.0) == 1.0 && ExpBounded(ext)
    ensures Process(input, wd, ht, scale, iscale, piece, ext)
         == FastPath(input, wd, ht, piece.table, piece.coeffs, ext.evalExp)
  {
    var rad := Radius(wd, scale, iscale);
    var n := LevelCount(wd, ht, rad);
    LevelCountReducible(wd, ht, rad);
    var cs: seq<seq<Image>> := ExposureContributions(input, wd, ht, piece, ext, n);
    var base0: Image := ExposureBase(input, wd, ht, piece, ext, 0);
    var pyr: seq<Image> := ExposurePyramid(input, wd, ht, piece, ext, n, 0);
    forall e | 0 <= e < |cs|
      ensures cs[e] == Contributions(pyr, wd, ht, n)
    {
      assert ExposureGain(piece, ext, e) == ExposureGain(piece, ext, 0);
    }
    var m := ContrastBias * 0.01;
    ExposureBaseProperties(input, wd, ht, piece, ext, 0);
    GaussPyramidAlphaAtLeast(base0, wd, ht, n, m);
    ReconstructIdentical(cs, pyr, wd, ht, n, m, 0);
    assert LevelSize(wd, 0) == wd && LevelSize(ht, 0) == ht;
    var top: Image := Reconstruct(Blend(cs, wd, ht, n), wd, ht, n, 0);
    assert SameColourImage(top, base0, wd, ht);
    var out: Image := Process(input, wd, ht, scale, iscale, piece, ext);
    assert out == CopyOut(top, input, wd, ht);
    var fast: Image := FastPath(input, wd, ht, piece.table, piece.coeffs, ext.evalExp);
    assert ExposureGain(piece, ext, 0) == 1.0;
    FastPathIsUnitExposure(input, wd, ht, piece.table, piece.coeffs, ext.evalExp);
    assert SameColourImage(base0, fast, wd, ht);
    forall j, i | 0 <= j < ht && 0 <= i < wd
      ensures out[j][i] == fast[j][i]
    {
      assert SameColour(out[j][i], top[j][i]);
      assert SameColour(top[j][i], base0[j][i]);
      assert SameColour(base0[j][i], fast[j][i]);
    }
    ImageExt(out, fast, wd, ht);
  }
}
