/** Pixels and images. The source stores an image as a flat buffer of
    4 floats per pixel, row-major: channel c of pixel (i, j) of a wd-wide
    image sits at index 4*(j*wd+i)+c. Here an image is a sequence of rows
    and a pixel a record of its four channels; channel 3 carries alpha on
    input and output and the fusion weight inside the fusion. */
module Pixels {

  datatype Pixel = Pixel(r: real, g: real, b: real, a: real)

  const Black := Pixel(0.0, 0.0, 0.0, 0.0)

  function Add(p: Pixel, q: Pixel): Pixel {
    Pixel(p.r + q.r, p.g + q.g, p.b + q.b, p.a + q.a)
  }

  function Sub(p: Pixel, q: Pixel): Pixel {
    Pixel(p.r - q.r, p.g - q.g, p.b - q.b, p.a - q.a)
  }

  function Scale(k: real, p: Pixel): Pixel {
    Pixel(k * p.r, k * p.g, k * p.b, k * p.a)
  }

  /** The three colour channels agree. */
  predicate SameColour(p: Pixel, q: Pixel) {
    p.r == q.r && p.g == q.g && p.b == q.b
  }

  type Image = seq<seq<Pixel>>

  /** `img` has `ht` rows of `wd` pixels. */
  predicate Shaped(img: Image, wd: int, ht: int) {
    |img| == ht && forall j :: 0 <= j < ht ==> |img[j]| == wd
  }

  /** Two images of one shape agree in the colour channels of every pixel. */
  predicate SameColourImage(x: Image, y: Image, wd: int, ht: int)
    requires Shaped(x, wd, ht) && Shaped(y, wd, ht)
  {
    forall j, i :: 0 <= j < ht && 0 <= i < wd ==> SameColour(x[j][i], y[j][i])
  }

  /** Channel 3 of every pixel is at least `m`. */
  predicate AlphaAtLeast(img: Image, wd: int, ht: int, m: real)
    requires Shaped(img, wd, ht)
  {
    forall j, i :: 0 <= j < ht && 0 <= i < wd ==> img[j][i].a >= m
  }

  /** Column `i` of an image of `ht` rows. */
  function Column(img: Image, i: int, ht: int): (col: seq<Pixel>)
    requires 0 <= i && ht >= 0 && |img| == ht
    requires forall j :: 0 <= j < ht ==> i < |img[j]|
    ensures |col| == ht
    ensures forall j :: 0 <= j < ht ==> col[j] == img[j][i]
  {
    seq(ht, j requires 0 <= j < ht => img[j][i])
  }

  /** The all-zero image, as left by memset. */
  function Zeros(wd: nat, ht: nat): (img: Image)
    ensures Shaped(img, wd, ht)
    ensures forall j, i :: 0 <= j < ht && 0 <= i < wd ==> img[j][i] == Black
  {
    seq(ht, j => seq(wd, i => Black))
  }

  /** Pixel-wise sum of two images of the same shape. */
  function AddImage(x: Image, y: Image, wd: nat, ht: nat): (z: Image)
    requires Shaped(x, wd, ht) && Shaped(y, wd, ht)
    ensures Shaped(z, wd, ht)
    ensures forall j, i :: 0 <= j < ht && 0 <= i < wd ==> z[j][i] == Add(x[j][i], y[j][i])
  {
    seq(ht, j requires 0 <= j < ht => seq(wd, i requires 0 <= i < wd => Add(x[j][i], y[j][i])))
  }

  /** Pixel-wise difference of two images of the same shape. */
  function SubImage(x: Image, y: Image, wd: nat, ht: nat): (z: Image)
    requires Shaped(x, wd, ht) && Shaped(y, wd, ht)
    ensures Shaped(z, wd, ht)
    ensures forall j, i :: 0 <= j < ht && 0 <= i < wd ==> z[j][i] == Sub(x[j][i], y[j][i])
  {
    seq(ht, j requires 0 <= j < ht => seq(wd, i requires 0 <= i < wd => Sub(x[j][i], y[j][i])))
  }

  /** Adding back what was subtracted restores the image. */
  lemma AddSubImageCancel(x: Image, y: Image, wd: nat, ht: nat)
    requires Shaped(x, wd, ht) && Shaped(y, wd, ht)
    ensures AddImage(y, SubImage(x, y, wd, ht), wd, ht) == x
  {
    var d := SubImage(x, y, wd, ht);
    var sum := AddImage(y, d, wd, ht);
    forall j, i | 0 <= j < ht && 0 <= i < wd
      ensures sum[j][i] == x[j][i]
    {
      assert d[j][i] == Sub(x[j][i], y[j][i]);
    }
    ImageExt(sum, x, wd, ht);
  }

  /** Two images of one shape are equal when they agree at every pixel. */
  lemma ImageExt(x: Image, y: Image, wd: nat, ht: nat)
    requires Shaped(x, wd, ht) && Shaped(y, wd, ht)
    requires forall j, i :: 0 <= j < ht && 0 <= i < wd ==> x[j][i] == y[j][i]
    ensures x == y
  {
    forall j | 0 <= j < ht
      ensures x[j] == y[j]
    {
      assert forall i :: 0 <= i < wd ==> x[j][i] == y[j][i];
    }
  }
}
