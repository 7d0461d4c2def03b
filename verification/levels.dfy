/** The choice of the pyramid depth in process: up to 8 levels, stopping
    once the blur step outgrows the radius or a level would fall below
    4 pixels in either dimension. */
module Levels {
  import opened Common
  import opened Pyramid

  /** The initial and largest level count. */
  const MaxLevels: nat := 8
  /** The smallest width or height a level beyond the first may have. */
  const MinLevelSize: int := 4

  /** The blur radius `MIN(wd, ceilf(256 * scale / iscale))` in pixels of
      the input: the ceiling of 256 scale / iscale, but never more than the
      width. */
  function Radius(wd: int, scale: real, iscale: real): (rad: int)
    requires iscale != 0.0
    ensures rad <= wd
    ensures rad as real - 1.0 < 256.0 * scale / iscale
    ensures rad == wd || (rad as real - 1.0 < 256.0 * scale / iscale <= rad as real)
  {
    Min(wd, Ceil(256.0 * scale / iscale))
  }

  /** The break condition tested once level `k` is allocated: the step
      2^(k+1) exceeds the radius, or level k+1 would be narrower or lower
      than 4 pixels. */
  predicate StopAfter(wd: int, ht: int, rad: int, k: nat)
    requires wd >= 1 && ht >= 1
  {
    Pow2(k + 1) > rad || LevelSize(wd, k + 1) < MinLevelSize || LevelSize(ht, k + 1) < MinLevelSize
  }

  /** The break condition at each of the 8 levels. */
  function Breaks(wd: int, ht: int, rad: int): (b: seq<bool>)
    requires wd >= 1 && ht >= 1
    ensures |b| == MaxLevels
    ensures forall k :: 0 <= k < MaxLevels ==> b[k] == StopAfter(wd, ht, rad, k)
  {
    seq(MaxLevels, k requires 0 <= k < MaxLevels => StopAfter(wd, ht, rad, k))
  }

  /** `n` is where a loop over the 8 levels with break conditions `b`
      ends: the first level whose condition holds, or 8 when none does. */
  predicate IsFirstStop(b: seq<bool>, n: int)
    requires |b| == MaxLevels
  {
    && 1 <= n <= MaxLevels
    && (forall k :: 0 <= k < n - 1 ==> !b[k])
    && (n < MaxLevels ==> b[n - 1])
  }

  /** `n` is the level count the loop of process settles on. */
  predicate IsLevelCount(wd: int, ht: int, rad: int, n: int)
    requires wd >= 1 && ht >= 1
  {
    IsFirstStop(Breaks(wd, ht, rad), n)
  }

  /** Where the loop ends is determined by the break conditions. */
  lemma FirstStopUnique(b: seq<bool>, n1: int, n2: int)
    requires |b| == MaxLevels && IsFirstStop(b, n1) && IsFirstStop(b, n2)
    ensures n1 == n2
  {
  }

  /** The level count is determined by the image size and radius. */
  lemma LevelCountUnique(wd: int, ht: int, rad: int, n1: int, n2: int)
    requires wd >= 1 && ht >= 1
    requires IsLevelCount(wd, ht, rad, n1) && IsLevelCount(wd, ht, rad, n2)
    ensures n1 == n2
  {
    FirstStopUnique(Breaks(wd, ht, rad), n1, n2);
  }

  /** Every level after the first is at least 4 x 4, and with two or more
      levels the coarsest step 2^(n-1) is within the radius. */
  lemma LevelCountBounds(wd: int, ht: int, rad: int, n: int)
    requires wd >= 1 && ht >= 1 && IsLevelCount(wd, ht, rad, n)
    ensures forall k: nat :: 1 <= k < n ==> LevelSize(wd, k) >= MinLevelSize && LevelSize(ht, k) >= MinLevelSize
    ensures n >= 2 ==> Pow2(n - 1) <= rad
  {
    var b := Breaks(wd, ht, rad);
    forall k: nat | 1 <= k < n
      ensures LevelSize(wd, k) >= MinLevelSize && LevelSize(ht, k) >= MinLevelSize
    {
      assert !b[k - 1];
    }
    if n >= 2 {
      assert !b[n - 2];
    }
  }

  /** Where the loop ends when it reaches level `k` without breaking. */
  function FirstStopFrom(b: seq<bool>, k: nat): (n: int)
    requires |b| == MaxLevels && k < MaxLevels
    ensures k + 1 <= n <= MaxLevels
    decreases MaxLevels - k
  {
    if k == MaxLevels - 1 || b[k] then k + 1
    else FirstStopFrom(b, k + 1)
  }

  /** From level `k` on, the loop passes every level before the one it
      ends at, and breaks there unless it runs out of levels. */
  lemma {:induction false} FirstStopFromStops(b: seq<bool>, k: nat)
    requires |b| == MaxLevels && k < MaxLevels
    ensures var n := FirstStopFrom(b, k);
      && (forall m :: k <= m < n - 1 ==> !b[m])
      && (n < MaxLevels ==> b[n - 1])
    decreases MaxLevels - k
  {
    if k == MaxLevels - 1 || b[k] {
    } else {
      FirstStopFromStops(b, k + 1);
    }
  }

  /** The level count of a wd x ht image for a given radius. */
  function LevelCount(wd: int, ht: int, rad: int): (n: int)
    requires wd >= 1 && ht >= 1
    ensures IsLevelCount(wd, ht, rad, n)
  {
    FirstStopFromStops(Breaks(wd, ht, rad), 0);
    FirstStopFrom(Breaks(wd, ht, rad), 0)
  }

  /** With a radius below 2, or an image whose first reduction is below
      4 pixels, the loop stops after level 0: one level only. */
  lemma SingleLevel(wd: int, ht: int, rad: int)
    requires wd >= 1 && ht >= 1
    requires rad < 2 || Halve(wd) < MinLevelSize || Halve(ht) < MinLevelSize
    ensures LevelCount(wd, ht, rad) == 1
  {
    var b := Breaks(wd, ht, rad);
    assert LevelSize(wd, 1) == Halve(wd) && LevelSize(ht, 1) == Halve(ht);
    assert Pow2(1) == 2 * Pow2(0) == 2;
    assert b[0];
    assert IsFirstStop(b, 1);
    LevelCountUnique(wd, ht, rad, 1, LevelCount(wd, ht, rad));
  }

  /** One iteration of the allocation loop: halving the sizes and doubling
      the step give level k+1's sizes and step, and the test made on them
      is the break condition of level k. */
  lemma LoopStep(wd: int, ht: int, rad: int, k: nat, w: int, h: int, step: int)
    requires wd >= 1 && ht >= 1
    requires w == Halve(LevelSize(wd, k)) && h == Halve(LevelSize(ht, k)) && step == 2 * Pow2(k)
    ensures w == LevelSize(wd, k + 1) && h == LevelSize(ht, k + 1) && step == Pow2(k + 1)
    ensures StopAfter(wd, ht, rad, k) == (step > rad || w < MinLevelSize || h < MinLevelSize)
  {
  }

  /** A loop that passes levels 0 .. n-2 and breaks at level n-1, or runs
      through all 8 levels, ends with the level count. */
  lemma StopsGiveCount(wd: int, ht: int, rad: int, n: int)
    requires wd >= 1 && ht >= 1 && 1 <= n <= MaxLevels
    requires forall m: nat :: m < n - 1 ==> !StopAfter(wd, ht, rad, m)
    requires n < MaxLevels ==> StopAfter(wd, ht, rad, n - 1)
    ensures LevelCount(wd, ht, rad) == n
  {
    assert IsLevelCount(wd, ht, rad, n);
    LevelCountUnique(wd, ht, rad, n, LevelCount(wd, ht, rad));
  }

  /** The sizes of levels 0 .. k-1, in order. */
  function SizesBelow(wd: int, ht: int, k: nat): (sizes: seq<(int, int)>)
    requires wd >= 1 && ht >= 1
    ensures |sizes| == k
  {
    if k == 0 then [] else SizesBelow(wd, ht, k - 1) + [(LevelSize(wd, k - 1), LevelSize(ht, k - 1))]
  }

  /** Entry m of the list of sizes is level m's size. */
  lemma {:induction false} SizesBelowAt(wd: int, ht: int, k: nat)
    requires wd >= 1 && ht >= 1
    ensures forall m :: 0 <= m < k ==> SizesBelow(wd, ht, k)[m] == (LevelSize(wd, m), LevelSize(ht, m))
  {
    if k > 0 {
      SizesBelowAt(wd, ht, k - 1);
    }
  }

  /** The allocation loop of process: level k gets a buffer of the current
      w x h, then w and h are halved and the step doubled; the loop stops
      on the break condition. The count is the one LevelCount characterises
      (so LevelCountBounds applies to it), and the sizes allocated are the
      ones the later loops recompute by halving k times. */
  method SelectLevels(wd: int, ht: int, rad: int) returns (numLevels: int, sizes: seq<(int, int)>)
    requires wd >= 1 && ht >= 1
    ensures numLevels == LevelCount(wd, ht, rad)
    ensures |sizes| == numLevels
    ensures forall k :: 0 <= k < numLevels ==> sizes[k] == (LevelSize(wd, k), LevelSize(ht, k))
  {
    numLevels := MaxLevels;
    var w, h := wd, ht;
    var step := 1;
    sizes := [];
    var k := 0;
    while k < MaxLevels
      invariant 0 <= k <= MaxLevels
      invariant forall m: nat :: m < k ==> !StopAfter(wd, ht, rad, m)
      invariant w == LevelSize(wd, k) && h == LevelSize(ht, k) && step == Pow2(k)
      invariant |sizes| == k
      invariant sizes == SizesBelow(wd, ht, k)
    {
      sizes := sizes + [(w, h)];
      w := Halve(w);
      h := Halve(h);
      step := 2 * step;
      LoopStep(wd, ht, rad, k, w, h, step);
      if step > rad || w < MinLevelSize || h < MinLevelSize {
        numLevels := k + 1;
        StopsGiveCount(wd, ht, rad, numLevels);
        SizesBelowAt(wd, ht, numLevels);
        return;
      }
      k := k + 1;
    }
    StopsGiveCount(wd, ht, rad, MaxLevels);
    SizesBelowAt(wd, ht, MaxLevels);
  }
}
