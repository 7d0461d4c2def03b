/** The exposure-fusion branch of process: every exposure is tone mapped,
    weighted by compute_features and by its local contrast, decomposed into
    a Laplacian pyramid, and blended level by level with its weights; the
    blended pyramid is normalised by the summed weights and collapsed
    coarse to fine. Channel 3 of the output is the input's. */
module Fusion {
  import opened Common
  import opened Pixels
  import opened ToneCurve
  import opened Features
  import opened Pyramid
  import opened Levels

  /** The summed weight a blended pixel must exceed to be normalised (1e-8). */
  const WeightThreshold: real := 0.00000001
  /** The constant part of the local-contrast factor (0.8). */
  const ContrastBias: real := 0.8

  /** The functions of the C library and of the curve code the module
      calls: dt_iop_eval_exp, expf and powf. */
  datatype Externals = Externals(evalExp: (Coeffs, real) -> real, expf: real -> real,
                                 powf: (real, real) -> real)

  /** The part of the pipeline piece's data process reads. */
  datatype Piece = Piece(table: seq<real>, coeffs: Coeffs, exposureFusion: int, exposureStops: real)

  /** expf maps non-positive arguments into [0, 1]. */
  ghost predicate ExpBounded(ext: Externals) {
    forall t :: t <= 0.0 ==> 0.0 <= ext.expf(t) <= 1.0
  }

  /** The number of exposures the loop `e < exposure_fusion + 1` visits. */
  function ExposureCount(fusion: int): (count: nat)
    ensures fusion >= 0 ==> count == fusion + 1
    ensures fusion < 0 ==> count == 0
  {
    if fusion + 1 > 0 then fusion + 1 else 0
  }

  /** The gain `powf(2, exposure_stops * e)` of exposure `e`. */
  function ExposureGain(piece: Piece, ext: Externals, e: nat): real {
    ext.powf(2.0, piece.exposureStops * e as real)
  }

  /** `r^2 + g^2 + b^2` of a detail pixel. */
  function DetailEnergy(p: Pixel): (en: real)
    ensures en >= 0.0
  {
    assert p.r * p.r >= 0.0 && p.g * p.g >= 0.0 && p.b * p.b >= 0.0;
    p.r * p.r + p.g * p.g + p.b * p.b
  }

  lemma ScaleAtLeast(a: real, f: real, m: real)
    requires 0.0 <= m <= a && f >= ContrastBias
    ensures a * f >= ContrastBias * m
  {
    assert a * f - ContrastBias * m == a * (f - ContrastBias) + ContrastBias * (a - m);
    assert a * (f - ContrastBias) >= 0.0;
  }

  /** The loop after the first gauss_reduce: channel 3 of level 0 is
      multiplied by `0.8 + |detail|^2`, and the colour is unchanged. Since
      the factor is at least 0.8, a non-negative weight keeps at least 0.8
      of itself. */
  function Modulate(col: Image, detail: Image, wd: nat, ht: nat): (out: Image)
    requires Shaped(col, wd, ht) && Shaped(detail, wd, ht)
    ensures Shaped(out, wd, ht)
    ensures SameColourImage(out, col, wd, ht)
    ensures forall j, i :: 0 <= j < ht && 0 <= i < wd ==>
      out[j][i].a == col[j][i].a * (ContrastBias + DetailEnergy(detail[j][i]))
    ensures forall j, i :: 0 <= j < ht && 0 <= i < wd && col[j][i].a >= 0.0 ==>
      out[j][i].a >= ContrastBias * col[j][i].a
  {
    seq(ht, j requires 0 <= j < ht => seq(wd, i requires 0 <= i < wd =>
      var p := col[j][i];
      var f := ContrastBias + DetailEnergy(detail[j][i]);
      ScaleAtLeast(if p.a >= 0.0 then p.a else 0.0, f, if p.a >= 0.0 then p.a else 0.0);
      Pixel(p.r, p.g, p.b, p.a * f)))
  }

  /** Level 0 of exposure `e` once its weights are final: the input pushed
      by the exposure's gain through the curve, weighted by
      compute_features, and the weights modulated by the detail that the
      first gauss_reduce writes into the output buffer. The buffer's old
      channel 3 is irrelevant (FeaturesIgnorePriorAlpha); the input stands
      in for it. */
  function ExposureBase(input: Image, wd: nat, ht: nat, piece: Piece, ext: Externals, e: nat): (col: Image)
    requires wd >= 4 && ht >= 4 && Shaped(input, wd, ht) && |piece.table| == TableSize
    ensures Shaped(col, wd, ht)
  {
    var mapped: Image := ApplyEvAndCurve(input, input, wd, ht, ExposureGain(piece, ext, e),
                                  piece.table, Some(piece.coeffs), ext.evalExp);
    var c: Image := ComputeFeatures(mapped, wd, ht, ext.expf);
    Modulate(c, GaussReduce(c, wd, ht, true).detail.value, wd, ht)
  }

  /** The colour of level 0 is the tone-mapped exposure, and with expf
      bounded every weight is at least 0.8 * 0.01. */
  lemma ExposureBaseProperties(input: Image, wd: nat, ht: nat, piece: Piece, ext: Externals, e: nat)
    requires wd >= 4 && ht >= 4 && Shaped(input, wd, ht) && |piece.table| == TableSize
    ensures SameColourImage(ExposureBase(input, wd, ht, piece, ext, e),
                            ApplyEvAndCurve(input, input, wd, ht, ExposureGain(piece, ext, e),
                                            piece.table, Some(piece.coeffs), ext.evalExp), wd, ht)
    ensures ExpBounded(ext) ==>
      AlphaAtLeast(ExposureBase(input, wd, ht, piece, ext, e), wd, ht, ContrastBias * 0.01)
  {
    var mapped: Image := ApplyEvAndCurve(input, input, wd, ht, ExposureGain(piece, ext, e),
                                  piece.table, Some(piece.coeffs), ext.evalExp);
    var c: Image := ComputeFeatures(mapped, wd, ht, ext.expf);
    var col: Image := ExposureBase(input, wd, ht, piece, ext, e);
    if ExpBounded(ext) {
      forall j, i | 0 <= j < ht && 0 <= i < wd
        ensures col[j][i].a >= ContrastBias * 0.01
      {
        FeatureWeightBounds(mapped[j][i], ext.expf);
        assert c[j][i].a >= 0.01;
      }
    }
  }

  /** The pyramid levels below `n - 1` are at least 4 x 4, so each of
      them can be reduced and expanded into. */
  predicate Reducible(wd: int, ht: int, n: int)
    requires wd >= 1 && ht >= 1
  {
    forall k: nat :: k < n - 1 ==> LevelSize(wd, k) >= MinLevelSize && LevelSize(ht, k) >= MinLevelSize
  }

  /** The level count process chooses for an image of at least 4 x 4
      leaves every level it reduces at least 4 x 4. */
  lemma LevelCountReducible(wd: int, ht: int, rad: int)
    requires wd >= 4 && ht >= 4
    ensures Reducible(wd, ht, LevelCount(wd, ht, rad))
  {
    LevelCountBounds(wd, ht, rad, LevelCount(wd, ht, rad));
  }

  /** `img` has the size of level `k` of a wd x ht image. */
  predicate LevelShaped(img: Image, wd: int, ht: int, k: nat)
    requires wd >= 1 && ht >= 1
  {
    Shaped(img, LevelSize(wd, k), LevelSize(ht, k))
  }

  /** `levels` holds `n` images of the sizes of levels 0 .. n-1. */
  predicate Pyramidal(levels: seq<Image>, wd: int, ht: int, n: int)
    requires wd >= 1 && ht >= 1
  {
    |levels| == n && forall k: nat :: k < n ==> LevelShaped(levels[k], wd, ht, k)
  }

  /** The loop `gauss_reduce(col[k-1], col[k], 0, w, h)`: the Gaussian
      pyramid whose level 0 is `base`. */
  function GaussPyramid(base: Image, wd: nat, ht: nat, n: nat): (pyr: seq<Image>)
    requires wd >= 1 && ht >= 1 && n >= 1 && Reducible(wd, ht, n) && Shaped(base, wd, ht)
    ensures Pyramidal(pyr, wd, ht, n)
    ensures pyr[0] == base
    ensures forall k: nat :: 1 <= k < n ==>
      pyr[k] == GaussReduce(pyr[k - 1], LevelSize(wd, k - 1), LevelSize(ht, k - 1), false).coarse
  {
    if n == 1 then [base]
    else
      var pyr: seq<Image> := GaussPyramid(base, wd, ht, n - 1);
      pyr + [GaussReduce(pyr[n - 2], LevelSize(wd, n - 2), LevelSize(ht, n - 2), false).coarse]
  }

  /** A lower bound on the weights of level 0 holds at every level. */
  lemma {:induction false} GaussPyramidAlphaAtLeast(base: Image, wd: nat, ht: nat, n: nat, m: real)
    requires wd >= 1 && ht >= 1 && n >= 1 && Reducible(wd, ht, n) && Shaped(base, wd, ht)
    requires AlphaAtLeast(base, wd, ht, m)
    ensures var pyr := GaussPyramid(base, wd, ht, n);
      forall k: nat :: k < n ==> AlphaAtLeast(pyr[k], LevelSize(wd, k), LevelSize(ht, k), m)
  {
    var pyr: seq<Image> := GaussPyramid(base, wd, ht, n);
    forall k: nat | k < n
      ensures AlphaAtLeast(pyr[k], LevelSize(wd, k), LevelSize(ht, k), m)
    {
      LevelAlphaAtLeast(base, wd, ht, n, m, k);
    }
  }

  lemma {:induction false} LevelAlphaAtLeast(base: Image, wd: nat, ht: nat, n: nat, m: real, k: nat)
    requires wd >= 1 && ht >= 1 && n >= 1 && Reducible(wd, ht, n) && Shaped(base, wd, ht)
    requires AlphaAtLeast(base, wd, ht, m) && k < n
    ensures AlphaAtLeast(GaussPyramid(base, wd, ht, n)[k], LevelSize(wd, k), LevelSize(ht, k), m)
  {
    var pyr: seq<Image> := GaussPyramid(base, wd, ht, n);
    if k > 0 {
      LevelAlphaAtLeast(base, wd, ht, n, m, k - 1);
      GaussReduceAlphaAtLeast(pyr[k - 1], LevelSize(wd, k - 1), LevelSize(ht, k - 1), m);
    }
  }

  /** The level-k band of an exposure's Laplacian pyramid: the Gaussian
      level minus the expansion of the next coarser one, or the coarsest
      Gaussian level itself. Either way, expanding the next coarser
      Gaussian level and adding the band gives back the Gaussian level. */
  function Laplacian(pyr: seq<Image>, wd: nat, ht: nat, n: nat, k: nat): (lap: Image)
    requires wd >= 1 && ht >= 1 && Pyramidal(pyr, wd, ht, n) && Reducible(wd, ht, n) && k < n
    ensures LevelShaped(lap, wd, ht, k)
    ensures k == n - 1 ==> lap == pyr[k]
    ensures k < n - 1 ==>
      AddImage(GaussExpand(pyr[k + 1], LevelSize(wd, k), LevelSize(ht, k)), lap,
               LevelSize(wd, k), LevelSize(ht, k)) == pyr[k]
  {
    if k == n - 1 then pyr[k]
    else
      var w, h := LevelSize(wd, k), LevelSize(ht, k);
      var up := GaussExpand(pyr[k + 1], w, h);
      AddSubImageCancel(pyr[k], up, w, h);
      SubImage(pyr[k], up, w, h)
  }

  /** `w * p` in the colour channels and `w` in channel 3: what one pixel
      of an exposure adds into the blended pyramid. */
  function Weighted(w: real, p: Pixel): Pixel {
    Pixel(w * p.r, w * p.g, w * p.b, w)
  }

  /** What exposure `pyr` adds into level `k` of the blended pyramid: its
      band weighted by its Gaussian weights, and the weights themselves in
      channel 3. */
  function Contribution(pyr: seq<Image>, wd: nat, ht: nat, n: nat, k: nat): (c: Image)
    requires wd >= 1 && ht >= 1 && Pyramidal(pyr, wd, ht, n) && Reducible(wd, ht, n) && k < n
    ensures LevelShaped(c, wd, ht, k)
  {
    var lap := Laplacian(pyr, wd, ht, n, k);
    seq(LevelSize(ht, k), j requires 0 <= j < LevelSize(ht, k) =>
      seq(LevelSize(wd, k), i requires 0 <= i < LevelSize(wd, k) =>
        Weighted(pyr[k][j][i].a, lap[j][i])))
  }

  /** What an exposure adds into all `n` levels of the blended pyramid. */
  function Contributions(pyr: seq<Image>, wd: nat, ht: nat, n: nat): (cs: seq<Image>)
    requires wd >= 1 && ht >= 1 && Pyramidal(pyr, wd, ht, n) && Reducible(wd, ht, n)
    ensures Pyramidal(cs, wd, ht, n)
  {
    seq(n, k requires 0 <= k < n => Contribution(pyr, wd, ht, n, k))
  }

  /** Channel 3 of an exposure's contribution is the exposure's weight. */
  lemma ContributionWeight(pyr: seq<Image>, wd: nat, ht: nat, n: nat, k: nat, j: int, i: int)
    requires wd >= 1 && ht >= 1 && Pyramidal(pyr, wd, ht, n) && Reducible(wd, ht, n) && k < n
    requires 0 <= j < LevelSize(ht, k) && 0 <= i < LevelSize(wd, k)
    ensures Contributions(pyr, wd, ht, n)[k][j][i].a == pyr[k][j][i].a
  {
    assert Contributions(pyr, wd, ht, n)[k] == Contribution(pyr, wd, ht, n, k);
  }

  /** Every pyramid in `pyrs` has the `n` level sizes. */
  predicate AllPyramidal(pyrs: seq<seq<Image>>, wd: int, ht: int, n: int)
    requires wd >= 1 && ht >= 1
  {
    forall e :: 0 <= e < |pyrs| ==> Pyramidal(pyrs[e], wd, ht, n)
  }

  /** The blended pyramid `comb` after adding the contributions `cs` of
      the exposures into the zeroed buffers. */
  function Blend(cs: seq<seq<Image>>, wd: nat, ht: nat, n: nat): (comb: seq<Image>)
    requires wd >= 1 && ht >= 1 && AllPyramidal(cs, wd, ht, n)
    ensures Pyramidal(comb, wd, ht, n)
    decreases |cs|
  {
    if |cs| == 0 then
      seq(n, k requires 0 <= k < n => Zeros(LevelSize(wd, k), LevelSize(ht, k)))
    else
      var prev := Blend(cs[..|cs| - 1], wd, ht, n);
      var last := cs[|cs| - 1];
      seq(n, k requires 0 <= k < n =>
        AddImage(prev[k], last[k], LevelSize(wd, k), LevelSize(ht, k)))
  }

  /** The sum of channel 3 of the contributions at pixel (j, i) of level k. */
  function WeightSum(cs: seq<seq<Image>>, wd: nat, ht: nat, n: nat, k: nat, j: int, i: int): real
    requires wd >= 1 && ht >= 1 && AllPyramidal(cs, wd, ht, n) && k < n
    requires 0 <= j < LevelSize(ht, k) && 0 <= i < LevelSize(wd, k)
    decreases |cs|
  {
    if |cs| == 0 then 0.0
    else WeightSum(cs[..|cs| - 1], wd, ht, n, k, j, i) + cs[|cs| - 1][k][j][i].a
  }

  /** Channel 3 of every blended level is the sum of the exposures'
      weights at that level. */
  lemma {:induction false} BlendWeightIsWeightSum(cs: seq<seq<Image>>, wd: nat, ht: nat, n: nat,
                                                  k: nat, j: int, i: int)
    requires wd >= 1 && ht >= 1 && AllPyramidal(cs, wd, ht, n) && k < n
    requires 0 <= j < LevelSize(ht, k) && 0 <= i < LevelSize(wd, k)
    ensures Blend(cs, wd, ht, n)[k][j][i].a == WeightSum(cs, wd, ht, n, k, j, i)
    decreases |cs|
  {
    if |cs| > 0 {
      var front: seq<seq<Image>> := cs[..|cs| - 1];
      var last: seq<Image> := cs[|cs| - 1];
      assert forall e :: 0 <= e < |front| ==> front[e] == cs[e];
      BlendWeightIsWeightSum(front, wd, ht, n, k, j, i);
      var prev: seq<Image> := Blend(front, wd, ht, n);
      var here: Image := AddImage(prev[k], last[k], LevelSize(wd, k), LevelSize(ht, k));
      assert Blend(cs, wd, ht, n)[k] == here;
      assert here[j][i].a == prev[k][j][i].a + last[k][j][i].a;
    } else {
      assert Blend(cs, wd, ht, n)[k] == Zeros(LevelSize(wd, k), LevelSize(ht, k));
    }
  }

  /** Weights of at least `m >= 0` in every contribution sum to a
      non-negative total, and to at least `m` when there is a contribution. */
  lemma {:induction false} WeightSumAtLeast(cs: seq<seq<Image>>, wd: nat, ht: nat, n: nat,
                                            k: nat, j: int, i: int, m: real)
    requires wd >= 1 && ht >= 1 && AllPyramidal(cs, wd, ht, n) && k < n
    requires 0 <= j < LevelSize(ht, k) && 0 <= i < LevelSize(wd, k)
    requires m >= 0.0 && forall e :: 0 <= e < |cs| ==> cs[e][k][j][i].a >= m
    ensures WeightSum(cs, wd, ht, n, k, j, i) >= 0.0
    ensures |cs| >= 1 ==> WeightSum(cs, wd, ht, n, k, j, i) >= m
    decreases |cs|
  {
    if |cs| > 0 {
      var front := cs[..|cs| - 1];
      assert forall e :: 0 <= e < |front| ==> front[e] == cs[e];
      WeightSumAtLeast(front, wd, ht, n, k, j, i, m);
    }
  }

  /** `e` times every channel of `p`. */
  function Times(e: real, p: Pixel): Pixel {
    Pixel(e * p.r, e * p.g, e * p.b, e * p.a)
  }

  lemma SuccTimes(e: nat, e1: nat, a: real)
    requires e1 == e + 1
    ensures e as real * a + a == e1 as real * a
  {
  }

  lemma TimesSucc(e: nat, e1: nat, p: Pixel)
    requires e1 == e + 1
    ensures Add(Times(e as real, p), p) == Times(e1 as real, p)
  {
    SuccTimes(e, e1, p.r);
    SuccTimes(e, e1, p.g);
    SuccTimes(e, e1, p.b);
    SuccTimes(e, e1, p.a);
  }

  /** Blending `|cs|` copies of one exposure's contributions multiplies
      them by `|cs|`. */
  lemma {:induction false} BlendIdentical(cs: seq<seq<Image>>, c: seq<Image>, wd: nat, ht: nat,
                                          n: nat, k: nat, j: int, i: int)
    requires wd >= 1 && ht >= 1 && Pyramidal(c, wd, ht, n) && k < n
    requires forall e :: 0 <= e < |cs| ==> cs[e] == c
    requires 0 <= j < LevelSize(ht, k) && 0 <= i < LevelSize(wd, k)
    ensures Blend(cs, wd, ht, n)[k][j][i] == Times(|cs| as real, c[k][j][i])
    decreases |cs|
  {
    if |cs| == 0 {
      assert Blend(cs, wd, ht, n)[k] == Zeros(LevelSize(wd, k), LevelSize(ht, k));
    } else {
      var front: seq<seq<Image>> := cs[..|cs| - 1];
      assert forall e :: 0 <= e < |front| ==> front[e] == cs[e];
      BlendIdentical(front, c, wd, ht, n, k, j, i);
      var prev: seq<Image> := Blend(front, wd, ht, n);
      var here: Image := AddImage(prev[k], c[k], LevelSize(wd, k), LevelSize(ht, k));
      assert Blend(cs, wd, ht, n)[k] == here;
      assert here[j][i] == Add(prev[k][j][i], c[k][j][i]);
      TimesSucc(|front|, |cs|, c[k][j][i]);
    }
  }

  /** Normalisation of one blended pixel: when the summed weight exceeds
      1e-8 the colour is divided by it, so that multiplying back by the
      weight restores the blended colour; otherwise the pixel is left as it
      is. The weight itself is never changed. */
  function NormalizePixel(p: Pixel): (q: Pixel)
    ensures q.a == p.a
    ensures p.a > WeightThreshold ==> q.r * p.a == p.r && q.g * p.a == p.g && q.b * p.a == p.b
    ensures p.a <= WeightThreshold ==> q == p
  {
    if p.a > WeightThreshold then Pixel(p.r / p.a, p.g / p.a, p.b / p.a, p.a) else p
  }

  /** A weighted colour whose weight exceeds the threshold normalises back
      to the colour. */
  lemma NormalizeWeighted(w: real, p: Pixel)
    requires w > WeightThreshold
    ensures SameColour(NormalizePixel(Weighted(w, p)), p)
  {
    var q := NormalizePixel(Weighted(w, p));
    MulCancel(q.r, p.r, w);
    MulCancel(q.g, p.g, w);
    MulCancel(q.b, p.b, w);
  }

  lemma MulCancel(x: real, y: real, z: real)
    requires z != 0.0 && x * z == y * z
    ensures x == y
  {
    assert (x - y) * z == 0.0;
  }

  function NormalizeLevel(img: Image, wd: nat, ht: nat): (out: Image)
    requires Shaped(img, wd, ht)
    ensures Shaped(out, wd, ht)
    ensures forall j, i :: 0 <= j < ht && 0 <= i < wd ==> out[j][i] == NormalizePixel(img[j][i])
  {
    seq(ht, j requires 0 <= j < ht => seq(wd, i requires 0 <= i < wd => NormalizePixel(img[j][i])))
  }

  /** The colour channels of `q` added to `p`; channel 3 stays `p`'s. */
  function AddColour(p: Pixel, q: Pixel): Pixel {
    Pixel(p.r + q.r, p.g + q.g, p.b + q.b, p.a)
  }

  /** The final contents of comb[k] after the normalise-and-reconstruct
      loop: level k normalised, plus, below the coarsest level, the colour
      of the expanded reconstruction of level k+1. Channel 3 keeps the
      summed weights. */
  function Reconstruct(comb: seq<Image>, wd: nat, ht: nat, n: nat, k: nat): (rec: Image)
    requires wd >= 1 && ht >= 1 && Pyramidal(comb, wd, ht, n) && Reducible(wd, ht, n) && k < n
    ensures LevelShaped(rec, wd, ht, k)
    ensures forall j, i :: 0 <= j < LevelSize(ht, k) && 0 <= i < LevelSize(wd, k) ==>
      rec[j][i].a == comb[k][j][i].a
    decreases n - k
  {
    var w, h := LevelSize(wd, k), LevelSize(ht, k);
    var base := NormalizeLevel(comb[k], w, h);
    if k == n - 1 then base
    else
      var up := GaussExpand(Reconstruct(comb, wd, ht, n, k + 1), w, h);
      seq(h, j requires 0 <= j < h => seq(w, i requires 0 <= i < w => AddColour(base[j][i], up[j][i])))
  }

  /** The Gaussian pyramid of exposure `e`. */
  function ExposurePyramid(input: Image, wd: nat, ht: nat, piece: Piece, ext: Externals, n: nat, e: nat): (pyr: seq<Image>)
    requires wd >= 4 && ht >= 4 && Shaped(input, wd, ht) && |piece.table| == TableSize
    requires n >= 1 && Reducible(wd, ht, n)
    ensures Pyramidal(pyr, wd, ht, n)
  {
    GaussPyramid(ExposureBase(input, wd, ht, piece, ext, e), wd, ht, n)
  }

  /** The contributions of all exposures the loop visits, in order. */
  function ExposureContributions(input: Image, wd: nat, ht: nat, piece: Piece, ext: Externals, n: nat): (cs: seq<seq<Image>>)
    requires wd >= 4 && ht >= 4 && Shaped(input, wd, ht) && |piece.table| == TableSize
    requires n >= 1 && Reducible(wd, ht, n)
    ensures |cs| == ExposureCount(piece.exposureFusion)
    ensures AllPyramidal(cs, wd, ht, n)
    ensures forall e :: 0 <= e < |cs| ==>
      cs[e] == Contributions(ExposurePyramid(input, wd, ht, piece, ext, n, e), wd, ht, n)
  {
    seq(ExposureCount(piece.exposureFusion), e requires 0 <= e =>
      Contributions(ExposurePyramid(input, wd, ht, piece, ext, n, e), wd, ht, n))
  }

  /** The final copy: colour from the reconstructed level 0, channel 3
      passed on from the input. */
  function CopyOut(top: Image, input: Image, wd: nat, ht: nat): (out: Image)
    requires Shaped(top, wd, ht) && Shaped(input, wd, ht)
    ensures Shaped(out, wd, ht)
    ensures SameColourImage(out, top, wd, ht)
    ensures forall j, i :: 0 <= j < ht && 0 <= i < wd ==> out[j][i].a == input[j][i].a
  {
    seq(ht, j requires 0 <= j < ht => seq(wd, i requires 0 <= i < wd =>
      Pixel(top[j][i].r, top[j][i].g, top[j][i].b, input[j][i].a)))
  }

  /** The exposure-fusion branch of process with `n` levels. Process needs
      at least two levels, since it writes level 1 of the colour pyramid
      unconditionally. */
  function Fuse(input: Image, wd: nat, ht: nat, piece: Piece, ext: Externals, n: nat): (out: Image)
    requires wd >= 4 && ht >= 4 && Shaped(input, wd, ht) && |piece.table| == TableSize
    requires n >= 2 && Reducible(wd, ht, n)
    ensures Shaped(out, wd, ht)
    ensures forall j, i :: 0 <= j < ht && 0 <= i < wd ==> out[j][i].a == input[j][i].a
  {
    var comb: seq<Image> := Blend(ExposureContributions(input, wd, ht, piece, ext, n), wd, ht, n);
    assert LevelSize(wd, 0) == wd && LevelSize(ht, 0) == ht;
    CopyOut(Reconstruct(comb, wd, ht, n, 0), input, wd, ht)
  }

  /** process: the fusion branch when exposure_fusion is non-zero, the
      fast path otherwise. The blur radius comes from the region's scale
      and the pipeline's input scale. */
  function Process(input: Image, wd: nat, ht: nat, scale: real, iscale: real, piece: Piece,
                   ext: Externals): (out: Image)
    requires Shaped(input, wd, ht) && |piece.table| == TableSize && iscale != 0.0
    requires piece.exposureFusion != 0 ==>
      wd >= 4 && ht >= 4 && LevelCount(wd, ht, Radius(wd, scale, iscale)) >= 2
    ensures Shaped(out, wd, ht)
    ensures forall j, i :: 0 <= j < ht && 0 <= i < wd ==> out[j][i].a == input[j][i].a
  {
    if piece.exposureFusion != 0 then
      var n := LevelCount(wd, ht, Radius(wd, scale, iscale));
      LevelCountReducible(wd, ht, Radius(wd, scale, iscale));
      Fuse(input, wd, ht, piece, ext, n)
    else
      FastPath(input, wd, ht, piece.table, piece.coeffs, ext.evalExp)
  }

  /** A level below the coarsest collapses to its normalised level plus
      the expansion of the collapsed next level, in the colour channels. */
  lemma ReconstructStep(comb: seq<Image>, wd: nat, ht: nat, n: nat, k: nat)
    requires wd >= 1 && ht >= 1 && Pyramidal(comb, wd, ht, n) && Reducible(wd, ht, n) && k < n - 1
    ensures var w, h := LevelSize(wd, k), LevelSize(ht, k);
      var base := NormalizeLevel(comb[k], w, h);
      var up := GaussExpand(Reconstruct(comb, wd, ht, n, k + 1), w, h);
      var rec := Reconstruct(comb, wd, ht, n, k);
      forall j, i :: 0 <= j < h && 0 <= i < w ==> rec[j][i] == AddColour(base[j][i], up[j][i])
  {
  }
}
