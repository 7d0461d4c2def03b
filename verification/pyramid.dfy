/** gauss_reduce and gauss_expand: one step down and one step up a
    Gaussian pyramid. A level of width w has a coarser neighbour of width
    (w-1)/2+1, holding the blurred pixels at even positions. */
module Pyramid {
  import opened Common
  import opened Pixels
  import opened Blur

  /** The coarse size `(n-1)/2+1` of an `n`-sample dimension: exactly the
      number of even indices below `n`. */
  function Halve(n: int): (r: int)
    requires n >= 1
    ensures r >= 1
    ensures 2 * (r - 1) < n <= 2 * r
  {
    (n - 1) / 2 + 1
  }

  /** The size of a dimension of `n` samples after `k` reductions, as the
      allocation loop and the recomputations in process obtain it. */
  function LevelSize(n: int, k: nat): (r: int)
    requires n >= 1
    ensures r >= 1
  {
    if k == 0 then n else Halve(LevelSize(n, k - 1))
  }

  /** The subsampling loop of gauss_reduce: coarse pixel (j, i) is fine
      pixel (2j, 2i), for every j, i with 2j < ht and 2i < wd. */
  function Subsample(fine: Image, wd: nat, ht: nat): (coarse: Image)
    requires wd >= 1 && ht >= 1 && Shaped(fine, wd, ht)
    ensures Shaped(coarse, Halve(wd), Halve(ht))
    ensures forall j, i :: 0 <= j < Halve(ht) && 0 <= i < Halve(wd) ==>
      2 * j < ht && 2 * i < wd && coarse[j][i] == fine[2 * j][2 * i]
  {
    seq(Halve(ht), j requires 0 <= j < Halve(ht) =>
      seq(Halve(wd), i requires 0 <= i < Halve(wd) => fine[2 * j][2 * i]))
  }

  /** The zero-insertion of gauss_expand: 4 times coarse pixel (j/2, i/2) at
      even/even fine positions, zero elsewhere. The coarse index read is in
      range for every fine position. */
  function Upsample(coarse: Image, wd: nat, ht: nat): (fine: Image)
    requires wd >= 1 && ht >= 1 && Shaped(coarse, Halve(wd), Halve(ht))
    ensures Shaped(fine, wd, ht)
    ensures forall j, i :: 0 <= j < ht && 0 <= i < wd ==>
      j / 2 < Halve(ht) && i / 2 < Halve(wd) &&
      fine[j][i] == (if j % 2 == 0 && i % 2 == 0 then Scale(4.0, coarse[j / 2][i / 2]) else Black)
  {
    seq(ht, j requires 0 <= j < ht => seq(wd, i requires 0 <= i < wd =>
      if j % 2 == 0 && i % 2 == 0 then Scale(4.0, coarse[j / 2][i / 2]) else Black))
  }

  /** Subsampling a zero-inserted image recovers 4 times the coarse image:
      the even/even positions of the fine grid are exactly the coarse grid. */
  lemma SubsampleOfUpsample(coarse: Image, wd: nat, ht: nat)
    requires wd >= 1 && ht >= 1 && Shaped(coarse, Halve(wd), Halve(ht))
    ensures var s := Subsample(Upsample(coarse, wd, ht), wd, ht);
      forall j, i :: 0 <= j < Halve(ht) && 0 <= i < Halve(wd) ==> s[j][i] == Scale(4.0, coarse[j][i])
  {
    var u := Upsample(coarse, wd, ht);
    var s := Subsample(u, wd, ht);
    forall j, i | 0 <= j < Halve(ht) && 0 <= i < Halve(wd)
      ensures s[j][i] == Scale(4.0, coarse[j][i])
    {
      assert s[j][i] == u[2 * j][2 * i];
      assert (2 * j) / 2 == j && (2 * i) / 2 == i;
      assert (2 * j) % 2 == 0 && (2 * i) % 2 == 0;
    }
  }

  /** Every pixel of the w x h image is `p`. */
  predicate Flat(img: Image, w: nat, h: nat, p: Pixel)
    requires Shaped(img, w, h)
  {
    forall j, i :: 0 <= j < h && 0 <= i < w ==> img[j][i] == p
  }

  /** On one channel: the even taps of the kernel, 1 + 6 + 1, and the odd
      taps, 4 + 4, are each half its weight. */
  lemma TapsHalf(x: real)
    ensures Weight(-2) * x + Weight(-1) * 0.0 + Weight(0) * x + Weight(1) * 0.0 + Weight(2) * x == 0.5 * x
    ensures Weight(-2) * 0.0 + Weight(-1) * x + Weight(0) * 0.0 + Weight(1) * x + Weight(2) * 0.0 == 0.5 * x
  {
    assert Weight(-2) == 1.0 / 16.0 && Weight(-1) == 4.0 / 16.0;
  }

  /** The even taps of the kernel keep half of a pixel. */
  lemma EvenTapsHalf(q: Pixel)
    ensures FiveTap(q, Black, q, Black, q) == Scale(0.5, q)
  {
    var e := FiveTap(q, Black, q, Black, q);
    TapsHalf(q.r);
    TapsHalf(q.g);
    TapsHalf(q.b);
    TapsHalf(q.a);
    assert e.r == 0.5 * q.r && e.g == 0.5 * q.g && e.b == 0.5 * q.b && e.a == 0.5 * q.a;
  }

  /** So do the odd taps. */
  lemma OddTapsHalf(q: Pixel)
    ensures FiveTap(Black, q, Black, q, Black) == Scale(0.5, q)
  {
    var o := FiveTap(Black, q, Black, q, Black);
    TapsHalf(q.r);
    TapsHalf(q.g);
    TapsHalf(q.b);
    TapsHalf(q.a);
    assert o.r == 0.5 * q.r && o.g == 0.5 * q.g && o.b == 0.5 * q.b && o.a == 0.5 * q.a;
  }

  /** Reflection about sample 0 keeps the parity of a position. */
  lemma ReflectParity(n: int, p: int)
    requires n >= 1 && -n < p < n
    ensures Reflect(n, p) % 2 == p % 2
  {
    if p < 0 {
      assert -p == p + 2 * (-p);
    }
  }

  /** The samples of a line that alternates between `q` at even positions
      and zero at odd ones. */
  predicate Alternating(line: seq<Pixel>, q: Pixel) {
    forall k :: 0 <= k < |line| ==> line[k] == (if k % 2 == 0 then q else Black)
  }

  /** The parity of the five taps around `i`. */
  lemma TapParities(i: int)
    ensures (i - 2) % 2 == i % 2 && (i + 2) % 2 == i % 2
    ensures (i - 1) % 2 != i % 2 && (i + 1) % 2 != i % 2
  {
  }

  /** An even position of an alternating line, reflected at the left
      border, reads `q`. */
  lemma EvenTap(line: seq<Pixel>, q: Pixel, p: int)
    requires |line| >= 4 && -|line| < p < |line| && Alternating(line, q) && p % 2 == 0
    ensures line[Reflect(|line|, p)] == q
  {
    ReflectParity(|line|, p);
  }

  /** An odd position reads zero. */
  lemma OddTap(line: seq<Pixel>, q: Pixel, p: int)
    requires |line| >= 4 && -|line| < p < |line| && Alternating(line, q) && p % 2 != 0
    ensures line[Reflect(|line|, p)] == Black
  {
    ReflectParity(|line|, p);
  }

  /** The five taps around an even `i` of an alternating line. */
  lemma AlternatingTapsEven(line: seq<Pixel>, q: Pixel, i: int)
    requires |line| >= 4 && 0 <= i < |line| - 2 && Alternating(line, q) && i % 2 == 0
    ensures Convolve(line, i) == FiveTap(q, Black, q, Black, q)
  {
    TapParities(i);
    EvenTap(line, q, i - 2);
    OddTap(line, q, i - 1);
    EvenTap(line, q, i);
    OddTap(line, q, i + 1);
    EvenTap(line, q, i + 2);
  }

  /** The five taps around an odd `i` of an alternating line. */
  lemma AlternatingTapsOdd(line: seq<Pixel>, q: Pixel, i: int)
    requires |line| >= 4 && 0 <= i < |line| - 2 && Alternating(line, q) && i % 2 != 0
    ensures Convolve(line, i) == FiveTap(Black, q, Black, q, Black)
  {
    TapParities(i);
    OddTap(line, q, i - 2);
    EvenTap(line, q, i - 1);
    OddTap(line, q, i);
    EvenTap(line, q, i + 1);
    OddTap(line, q, i + 2);
  }

  /** A line holding `q` at even positions and zero at odd ones blurs to
      half of `q` wherever the taps stay left of the right border. */
  lemma ConvolveAlternating(line: seq<Pixel>, q: Pixel, i: int)
    requires |line| >= 4 && 0 <= i < |line| - 2 && Alternating(line, q)
    ensures Convolve(line, i) == Scale(0.5, q)
  {
    if i % 2 == 0 {
      AlternatingTapsEven(line, q, i);
      EvenTapsHalf(q);
    } else {
      AlternatingTapsOdd(line, q, i);
      OddTapsHalf(q);
    }
  }

  /** Halving 4p gives 2p, halving 2p gives p, halving zero gives zero. */
  lemma HalvingSteps(p: Pixel)
    ensures Scale(0.5, Scale(4.0, p)) == Scale(2.0, p)
    ensures Scale(0.5, Scale(2.0, p)) == p
    ensures Scale(0.5, Black) == Black
  {
    var x, y := Scale(0.5, Scale(4.0, p)), Scale(0.5, Scale(2.0, p));
    assert x.r == 2.0 * p.r && x.g == 2.0 * p.g && x.b == 2.0 * p.b && x.a == 2.0 * p.a;
    assert y.r == p.r && y.g == p.g && y.b == p.b && y.a == p.a;
  }

  /** The value a flat level `p` zero-inserts at the even columns of fine
      row `j`: 4p on even rows, zero on odd ones. */
  function RowPeak(p: Pixel, j: int): Pixel {
    if j % 2 == 0 then Scale(4.0, p) else Black
  }

  /** Every fine row of a zero-inserted flat level alternates between its
      peak and zero. */
  lemma UpsampleFlatRow(coarse: Image, wd: nat, ht: nat, p: Pixel, j: int)
    requires wd >= 1 && ht >= 1 && Shaped(coarse, Halve(wd), Halve(ht))
    requires Flat(coarse, Halve(wd), Halve(ht), p) && 0 <= j < ht
    ensures Alternating(Upsample(coarse, wd, ht)[j], RowPeak(p, j))
  {
  }

  /** After the horizontal pass, column `i` clear of the right border holds
      2p on even rows and zero on odd ones. */
  lemma HorizontalFlatColumn(coarse: Image, wd: nat, ht: nat, p: Pixel, i: int)
    requires wd >= 4 && ht >= 1 && Shaped(coarse, Halve(wd), Halve(ht))
    requires Flat(coarse, Halve(wd), Halve(ht), p) && 0 <= i < wd - 2
    ensures var tmp := HorizontalPass(Upsample(coarse, wd, ht), wd, ht);
      Alternating(Column(tmp, i, ht), Scale(2.0, p))
  {
    var u := Upsample(coarse, wd, ht);
    var tmp := HorizontalPass(u, wd, ht);
    forall j | 0 <= j < ht
      ensures Column(tmp, i, ht)[j] == (if j % 2 == 0 then Scale(2.0, p) else Black)
    {
      UpsampleFlatRow(coarse, wd, ht, p, j);
      ConvolveAlternating(u[j], RowPeak(p, j), i);
      HalvingSteps(p);
    }
  }

  /** gauss_expand: zero-insert with gain 4, then blur at the fine size. */
  function GaussExpand(coarse: Image, wd: nat, ht: nat): (fine: Image)
    requires wd >= 4 && ht >= 4 && Shaped(coarse, Halve(wd), Halve(ht))
    ensures Shaped(fine, wd, ht)
  {
    GaussBlur(Upsample(coarse, wd, ht), wd, ht)
  }

  /** Expanding a flat coarse level gives back the same flat value at every
      fine pixel whose taps stay clear of the bottom and right borders: the
      zero-insertion gain of 4 is undone by the two passes, each keeping half
      of a line that alternates between a value and zero. Nearer those two
      borders the reflection about the half-sample past the end repeats the
      last sample and breaks the alternation. */
  lemma GaussExpandFlat(coarse: Image, wd: nat, ht: nat, p: Pixel)
    requires wd >= 4 && ht >= 4 && Shaped(coarse, Halve(wd), Halve(ht))
    requires Flat(coarse, Halve(wd), Halve(ht), p)
    ensures forall j, i :: 0 <= j < ht - 2 && 0 <= i < wd - 2 ==> GaussExpand(coarse, wd, ht)[j][i] == p
  {
    var u := Upsample(coarse, wd, ht);
    var tmp := HorizontalPass(u, wd, ht);
    forall j, i | 0 <= j < ht - 2 && 0 <= i < wd - 2
      ensures GaussExpand(coarse, wd, ht)[j][i] == p
    {
      HorizontalFlatColumn(coarse, wd, ht, p, i);
      ConvolveAlternating(Column(tmp, i, ht), Scale(2.0, p), j);
      HalvingSteps(p);
      assert GaussExpand(coarse, wd, ht)[j][i] == VerticalPass(tmp, wd, ht)[j][i];
    }
  }

  /** What gauss_reduce writes: the coarse level, and the detail (Laplacian)
      level when a detail buffer is passed. */
  datatype Reduced = Reduced(coarse: Image, detail: Option<Image>)

  /** gauss_reduce: blur, keep the even pixels as the coarse level, and when
      asked for, the residual of the input against the expanded coarse
      level. */
  function GaussReduce(input: Image, wd: nat, ht: nat, withDetail: bool): (r: Reduced)
    requires wd >= 4 && ht >= 4 && Shaped(input, wd, ht)
    ensures Shaped(r.coarse, Halve(wd), Halve(ht))
    ensures r.detail.Some? <==> withDetail
    ensures r.detail.Some? ==> Shaped(r.detail.value, wd, ht)
    ensures forall j, i :: 0 <= j < Halve(ht) && 0 <= i < Halve(wd) ==>
      r.coarse[j][i] == GaussBlur(input, wd, ht)[2 * j][2 * i]
  {
    var coarse := Subsample(GaussBlur(input, wd, ht), wd, ht);
    if withDetail then
      Reduced(coarse, Some(SubImage(input, GaussExpand(coarse, wd, ht), wd, ht)))
    else
      Reduced(coarse, None)
  }

  /** The detail level is the exact residual: expanding the coarse level and
      adding the detail gives back the input. */
  lemma ExpandPlusDetailIsInput(input: Image, wd: nat, ht: nat)
    requires wd >= 4 && ht >= 4 && Shaped(input, wd, ht)
    ensures var r := GaussReduce(input, wd, ht, true);
      AddImage(GaussExpand(r.coarse, wd, ht), r.detail.value, wd, ht) == input
  {
    var r := GaussReduce(input, wd, ht, true);
    AddSubImageCancel(input, GaussExpand(r.coarse, wd, ht), wd, ht);
  }

  /** Without a detail buffer the coarse level is the same. */
  lemma CoarseIndependentOfDetail(input: Image, wd: nat, ht: nat)
    requires wd >= 4 && ht >= 4 && Shaped(input, wd, ht)
    ensures GaussReduce(input, wd, ht, true).coarse == GaussReduce(input, wd, ht, false).coarse
  {
  }

  /** The colour channels of an expanded level depend only on the colour
      channels of the coarse level. */
  lemma GaussExpandColourOnly(x: Image, y: Image, wd: nat, ht: nat)
    requires wd >= 4 && ht >= 4
    requires Shaped(x, Halve(wd), Halve(ht)) && Shaped(y, Halve(wd), Halve(ht))
    requires SameColourImage(x, y, Halve(wd), Halve(ht))
    ensures SameColourImage(GaussExpand(x, wd, ht), GaussExpand(y, wd, ht), wd, ht)
  {
    var ux := Upsample(x, wd, ht);
    var uy := Upsample(y, wd, ht);
    forall j, i | 0 <= j < ht && 0 <= i < wd
      ensures SameColour(ux[j][i], uy[j][i])
    {
      if j % 2 == 0 && i % 2 == 0 {
        assert SameColour(x[j / 2][i / 2], y[j / 2][i / 2]);
      }
    }
    GaussBlurColourOnly(ux, uy, wd, ht);
  }

  /** A lower bound on channel 3 carries over to the coarse level. */
  lemma GaussReduceAlphaAtLeast(input: Image, wd: nat, ht: nat, m: real)
    requires wd >= 4 && ht >= 4 && Shaped(input, wd, ht) && AlphaAtLeast(input, wd, ht, m)
    ensures AlphaAtLeast(GaussReduce(input, wd, ht, false).coarse, Halve(wd), Halve(ht), m)
  {
    GaussBlurAlphaAtLeast(input, wd, ht, m);
  }
}
