/** gauss_blur: the separable 1-4-6-4-1 blur, a horizontal pass into a
    temporary buffer followed by a vertical pass into the output. Each
    pass treats a line in three loops: two border samples on the left,
    the interior, two border samples on the right. At the left border the
    line is reflected about sample 0 (position -p reads p), at the right
    border about the half-sample past the end (position n-1+q reads n-q). */
module Blur {
  import opened Common
  import opened Pixels

  /** The kernel w[0..4] = 1/16, 4/16, 6/16, 4/16, 1/16. */
  const Kernel: seq<real> := [1.0 / 16.0, 4.0 / 16.0, 6.0 / 16.0, 4.0 / 16.0, 1.0 / 16.0]

  /** The weight of offset `d`, w[d + 2]. */
  function Weight(d: int): real
    requires -2 <= d <= 2
  {
    Kernel[d + 2]
  }

  /** The sample that position `p` of an `n`-sample line stands for:
      itself inside the line, `-p` left of it, `2n - 1 - p` right of it. */
  function Reflect(n: int, p: int): (t: int)
    requires n >= 1 && -n < p < 2 * n
    ensures 0 <= t < n
  {
    if p < 0 then -p else if p < n then p else 2 * n - 1 - p
  }

  /** The index read by the left-border loop, `MAX(-i-ii, i+ii)`: in range
      and equal to the reflected position whenever the line has at least 4
      samples. */
  function LeftIndex(n: int, i: int, d: int): (t: int)
    requires n >= 4 && 0 <= i < 2 && -2 <= d <= 2
    ensures 0 <= t < n
    ensures t == Reflect(n, i + d)
  {
    Max(-i - d, i + d)
  }

  /** The index read by the right-border loop, `MIN(i+ii, wd-(i+ii-wd+1))`:
      in range and equal to the reflected position whenever the line has
      at least 4 samples. */
  function RightIndex(n: int, i: int, d: int): (t: int)
    requires n >= 4 && n - 2 <= i < n && -2 <= d <= 2
    ensures 0 <= t < n
    ensures t == Reflect(n, i + d)
  {
    Min(i + d, n - (i + d - n + 1))
  }

  /** w[0] p0 + w[1] p1 + w[2] p2 + w[3] p3 + w[4] p4, summed in that order. */
  function FiveTap(p0: Pixel, p1: Pixel, p2: Pixel, p3: Pixel, p4: Pixel): Pixel {
    Add(Add(Add(Add(Scale(Weight(-2), p0), Scale(Weight(-1), p1)), Scale(Weight(0), p2)),
            Scale(Weight(1), p3)), Scale(Weight(2), p4))
  }

  /** Reference blur of sample `i` of a line: the kernel applied to the five
      reflected neighbours. */
  function Convolve(line: seq<Pixel>, i: int): Pixel
    requires |line| >= 4 && 0 <= i < |line|
  {
    var n := |line|;
    FiveTap(line[Reflect(n, i - 2)], line[Reflect(n, i - 1)], line[Reflect(n, i)],
            line[Reflect(n, i + 1)], line[Reflect(n, i + 2)])
  }

  lemma AddBlack(p: Pixel)
    ensures Add(Black, p) == p
  {
  }

  /** A buffer whose samples below `i` hold their blur and whose samples
      from `i` on are still cleared. */
  predicate FilledBelow(out: seq<Pixel>, line: seq<Pixel>, i: int)
    requires |line| >= 4 && |out| == |line|
  {
    (forall k :: 0 <= k < i && k < |out| ==> out[k] == Convolve(line, k)) &&
    (forall k :: 0 <= i <= k < |out| ==> out[k] == Black)
  }

  /** Adding the blur of sample `i` into the cleared sample `i` extends the
      filled prefix by one. */
  lemma FillStep(out: seq<Pixel>, line: seq<Pixel>, i: int)
    requires |line| >= 4 && |out| == |line| && 0 <= i < |line| && FilledBelow(out, line, i)
    ensures FilledBelow(out[i := Add(out[i], Convolve(line, i))], line, i + 1)
  {
    AddBlack(Convolve(line, i));
  }

  /** One pass of gauss_blur over one line, as the source's three loops do
      it: the buffer starts cleared and each loop adds the five weighted
      taps into the samples it covers. For a line of at least 4 samples the
      loops cover every sample exactly once, so each output sample is the
      reference blur. */
  method BlurLine(line: seq<Pixel>) returns (out: seq<Pixel>)
    requires |line| >= 4
    ensures |out| == |line|
    ensures forall i :: 0 <= i < |line| ==> out[i] == Convolve(line, i)
  {
    var n := |line|;
    out := seq(n, _ => Black);
    // left borders
    var i := 0;
    while i < 2
      invariant 0 <= i <= 2 && |out| == n && FilledBelow(out, line, i)
    {
      var v := FiveTap(line[LeftIndex(n, i, -2)], line[LeftIndex(n, i, -1)], line[LeftIndex(n, i, 0)],
                       line[LeftIndex(n, i, 1)], line[LeftIndex(n, i, 2)]);
      assert v == Convolve(line, i);
      FillStep(out, line, i);
      out := out[i := Add(out[i], v)];
      i := i + 1;
    }
    // most pixels
    while i < n - 2
      invariant 2 <= i <= n - 2 && |out| == n && FilledBelow(out, line, i)
    {
      var v := FiveTap(line[i - 2], line[i - 1], line[i], line[i + 1], line[i + 2]);
      assert v == Convolve(line, i);
      FillStep(out, line, i);
      out := out[i := Add(out[i], v)];
      i := i + 1;
    }
    // right borders
    i := n - 2;
    while i < n
      invariant n - 2 <= i <= n && |out| == n && FilledBelow(out, line, i)
    {
      var v := FiveTap(line[RightIndex(n, i, -2)], line[RightIndex(n, i, -1)], line[RightIndex(n, i, 0)],
                       line[RightIndex(n, i, 1)], line[RightIndex(n, i, 2)]);
      assert v == Convolve(line, i);
      FillStep(out, line, i);
      out := out[i := Add(out[i], v)];
      i := i + 1;
    }
    assert FilledBelow(out, line, n);
  }

  /** The horizontal pass into `tmp`: every row blurred. */
  function HorizontalPass(img: Image, wd: nat, ht: nat): (tmp: Image)
    requires wd >= 4 && Shaped(img, wd, ht)
    ensures Shaped(tmp, wd, ht)
    ensures forall j, i :: 0 <= j < ht && 0 <= i < wd ==> tmp[j][i] == Convolve(img[j], i)
  {
    seq(ht, j requires 0 <= j < ht => seq(wd, i requires 0 <= i < wd => Convolve(img[j], i)))
  }

  /** The vertical pass into the output: every column of `tmp` blurred. */
  function VerticalPass(tmp: Image, wd: nat, ht: nat): (out: Image)
    requires ht >= 4 && Shaped(tmp, wd, ht)
    ensures Shaped(out, wd, ht)
    ensures forall j, i :: 0 <= j < ht && 0 <= i < wd ==> out[j][i] == Convolve(Column(tmp, i, ht), j)
  {
    seq(ht, j requires 0 <= j < ht => seq(wd, i requires 0 <= i < wd => Convolve(Column(tmp, i, ht), j)))
  }

  /** gauss_blur of a wd x ht image, wd, ht >= 4. */
  function GaussBlur(img: Image, wd: nat, ht: nat): (out: Image)
    requires wd >= 4 && ht >= 4 && Shaped(img, wd, ht)
    ensures Shaped(out, wd, ht)
  {
    VerticalPass(HorizontalPass(img, wd, ht), wd, ht)
  }

  /** The blur is separable: pixel (j, i) is the 5-tap sum, over the rows
      j-2 .. j+2 reflected at the top and bottom, of the 5-tap sums of those
      rows around column i. */
  lemma GaussBlurPixel(img: Image, wd: nat, ht: nat, j: int, i: int)
    requires wd >= 4 && ht >= 4 && Shaped(img, wd, ht)
    requires 0 <= j < ht && 0 <= i < wd
    ensures GaussBlur(img, wd, ht)[j][i] ==
      FiveTap(Convolve(img[Reflect(ht, j - 2)], i), Convolve(img[Reflect(ht, j - 1)], i),
              Convolve(img[Reflect(ht, j)], i), Convolve(img[Reflect(ht, j + 1)], i),
              Convolve(img[Reflect(ht, j + 2)], i))
  {
    var col := Column(HorizontalPass(img, wd, ht), i, ht);
    assert GaussBlur(img, wd, ht)[j][i] == Convolve(col, j);
    assert col[Reflect(ht, j - 2)] == Convolve(img[Reflect(ht, j - 2)], i);
    assert col[Reflect(ht, j - 1)] == Convolve(img[Reflect(ht, j - 1)], i);
    assert col[Reflect(ht, j)] == Convolve(img[Reflect(ht, j)], i);
    assert col[Reflect(ht, j + 1)] == Convolve(img[Reflect(ht, j + 1)], i);
    assert col[Reflect(ht, j + 2)] == Convolve(img[Reflect(ht, j + 2)], i);
  }

  /** gauss_blur as the source runs it: all rows into `tmp`, then the output
      cleared and all columns of `tmp` blurred into it. The vertical pass
      reads only `tmp`, so the output may be the input buffer itself. */
  method GaussBlurPasses(input: Image, wd: nat, ht: nat) returns (output: Image)
    requires wd >= 4 && ht >= 4 && Shaped(input, wd, ht)
    ensures output == GaussBlur(input, wd, ht)
  {
    var tmp: Image := [];
    var j := 0;
    while j < ht
      invariant 0 <= j <= ht && |tmp| == j
      invariant forall y :: 0 <= y < j ==> tmp[y] == HorizontalPass(input, wd, ht)[y]
    {
      var row := BlurLine(input[j]);
      tmp := tmp + [row];
      j := j + 1;
    }
    assert tmp == HorizontalPass(input, wd, ht);
    var cols: seq<seq<Pixel>> := [];
    var i := 0;
    while i < wd
      invariant 0 <= i <= wd && |cols| == i
      invariant forall x :: 0 <= x < i ==> |cols[x]| == ht
      invariant forall x, y :: 0 <= x < i && 0 <= y < ht ==> cols[x][y] == Convolve(Column(tmp, x, ht), y)
    {
      var col := BlurLine(Column(tmp, i, ht));
      cols := cols + [col];
      i := i + 1;
    }
    output := seq(ht, y requires 0 <= y < ht => seq(wd, x requires 0 <= x < wd => cols[x][y]));
    ImageExt(output, GaussBlur(input, wd, ht), wd, ht);
  }

  lemma FiveTapConstant(p: Pixel)
    ensures FiveTap(p, p, p, p, p) == p
  {
  }

  /** The weights sum to 1, so a constant image is left unchanged. */
  lemma GaussBlurPreservesConstant(img: Image, wd: nat, ht: nat, p: Pixel)
    requires wd >= 4 && ht >= 4 && Shaped(img, wd, ht)
    requires forall j, i :: 0 <= j < ht && 0 <= i < wd ==> img[j][i] == p
    ensures forall j, i :: 0 <= j < ht && 0 <= i < wd ==> GaussBlur(img, wd, ht)[j][i] == p
  {
    FiveTapConstant(p);
    var tmp := HorizontalPass(img, wd, ht);
    assert forall j, i :: 0 <= j < ht && 0 <= i < wd ==> tmp[j][i] == p;
  }

  /** Each channel is blurred on its own: lines that agree in colour blur
      to samples that agree in colour. */
  lemma ConvolveColourOnly(x: seq<Pixel>, y: seq<Pixel>, i: int)
    requires |x| >= 4 && |y| == |x| && 0 <= i < |x|
    requires forall k :: 0 <= k < |x| ==> SameColour(x[k], y[k])
    ensures SameColour(Convolve(x, i), Convolve(y, i))
  {
    var n := |x|;
    assert SameColour(x[Reflect(n, i - 2)], y[Reflect(n, i - 2)]);
    assert SameColour(x[Reflect(n, i - 1)], y[Reflect(n, i - 1)]);
    assert SameColour(x[Reflect(n, i)], y[Reflect(n, i)]);
    assert SameColour(x[Reflect(n, i + 1)], y[Reflect(n, i + 1)]);
    assert SameColour(x[Reflect(n, i + 2)], y[Reflect(n, i + 2)]);
  }

  /** The colour channels of a blurred image depend only on the colour
      channels of the image. */
  lemma GaussBlurColourOnly(x: Image, y: Image, wd: nat, ht: nat)
    requires wd >= 4 && ht >= 4 && Shaped(x, wd, ht) && Shaped(y, wd, ht)
    requires SameColourImage(x, y, wd, ht)
    ensures SameColourImage(GaussBlur(x, wd, ht), GaussBlur(y, wd, ht), wd, ht)
  {
    var tx: Image := HorizontalPass(x, wd, ht);
    var ty: Image := HorizontalPass(y, wd, ht);
    forall j, i | 0 <= j < ht && 0 <= i < wd
      ensures SameColour(tx[j][i], ty[j][i])
    {
      ConvolveColourOnly(x[j], y[j], i);
    }
    forall j, i | 0 <= j < ht && 0 <= i < wd
      ensures SameColour(GaussBlur(x, wd, ht)[j][i], GaussBlur(y, wd, ht)[j][i])
    {
      ConvolveColourOnly(Column(tx, i, ht), Column(ty, i, ht), j);
    }
  }

  /** The weights are positive and sum to 1, so a blurred sample's channel
      3 is never below the smallest channel 3 of its line. */
  lemma ConvolveAlphaAtLeast(x: seq<Pixel>, i: int, m: real)
    requires |x| >= 4 && 0 <= i < |x|
    requires forall k :: 0 <= k < |x| ==> x[k].a >= m
    ensures Convolve(x, i).a >= m
  {
    var n := |x|;
    assert x[Reflect(n, i - 2)].a >= m && x[Reflect(n, i - 1)].a >= m && x[Reflect(n, i)].a >= m;
    assert x[Reflect(n, i + 1)].a >= m && x[Reflect(n, i + 2)].a >= m;
  }

  /** A lower bound on channel 3 survives the blur. */
  lemma GaussBlurAlphaAtLeast(img: Image, wd: nat, ht: nat, m: real)
    requires wd >= 4 && ht >= 4 && Shaped(img, wd, ht) && AlphaAtLeast(img, wd, ht, m)
    ensures AlphaAtLeast(GaussBlur(img, wd, ht), wd, ht, m)
  {
    var t: Image := HorizontalPass(img, wd, ht);
    forall j, i | 0 <= j < ht && 0 <= i < wd
      ensures t[j][i].a >= m
    {
      ConvolveAlphaAtLeast(img[j], i, m);
    }
    forall j, i | 0 <= j < ht && 0 <= i < wd
      ensures GaussBlur(img, wd, ht)[j][i].a >= m
    {
      ConvolveAlphaAtLeast(Column(t, i, ht), j, m);
    }
  }
}
