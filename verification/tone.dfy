/** Per-sample tone lookup: values below 1 index the 65536-entry curve
    table, values from 1 on go to the exponential extrapolation. The
    extrapolation dt_iop_eval_exp is defined outside basecurve.c and is
    passed in as an uninterpreted function of the coefficients and the
    sample. */
module ToneCurve {
  import opened Common
  import opened Pixels

  /** Number of entries of the lookup table (0x10000). */
  const TableSize: nat := 0x10000
  /** Largest table index (0xffff). */
  const MaxIndex: nat := 0xffff

  /** The three coefficients of the extrapolation fit. */
  datatype Coeffs = Coeffs(c0: real, c1: real, c2: real)

  /** The table index of a sample below 1: CLAMP((int)(f * 0x10000), 0, 0xffff).
      For samples in [0, 1) it is the floor of f * 65536; every negative
      sample lands on entry 0. */
  function TableIndex(f: real): (k: int)
    requires f < 1.0
    ensures 0 <= k <= MaxIndex
    ensures f <= 0.0 ==> k == 0
    ensures 0.0 <= f ==> k as real <= f * 65536.0 < k as real + 1.0
  {
    Clamp(Trunc(f * 65536.0), 0, MaxIndex)
  }

  /** A larger sample never gets a smaller index. */
  lemma TableIndexMonotone(f: real, g: real)
    requires f <= g < 1.0
    ensures TableIndex(f) <= TableIndex(g)
  {
    TruncMonotone(f * 65536.0, g * 65536.0);
  }

  /** The mapping of one colour sample: table lookup below 1; from 1 on the
      extrapolation when coefficients are present, and 1 when the
      coefficient pointer is NULL. */
  function MapSample(f: real, table: seq<real>, coeffs: Option<Coeffs>,
                     evalExp: (Coeffs, real) -> real): (v: real)
    requires |table| == TableSize
    ensures f < 1.0 ==> v == table[TableIndex(f)]
    ensures f >= 1.0 && coeffs.Some? ==> v == evalExp(coeffs.value, f)
    ensures f >= 1.0 && coeffs.None? ==> v == 1.0
  {
    if f < 1.0 then table[TableIndex(f)]
    else if coeffs.Some? then evalExp(coeffs.value, f)
    else 1.0
  }

  /** A sample from 1 on never reads the table, and a sample below 1 never
      reads the extrapolation. */
  lemma MapSampleReadsOneSide(f: real, t1: seq<real>, t2: seq<real>, c1: Option<Coeffs>,
                              c2: Option<Coeffs>, e1: (Coeffs, real) -> real,
                              e2: (Coeffs, real) -> real)
    requires |t1| == TableSize && |t2| == TableSize
    ensures f >= 1.0 ==> MapSample(f, t1, c1, e1) == MapSample(f, t2, c1, e1)
    ensures f < 1.0 ==> MapSample(f, t1, c1, e1) == MapSample(f, t1, c2, e2)
  {
  }

  /** The table is non-decreasing. */
  predicate Monotone(table: seq<real>) {
    forall i, j :: 0 <= i <= j < |table| ==> table[i] <= table[j]
  }

  /** Over a non-decreasing table the mapping is non-decreasing below 1. */
  lemma MapSampleMonotone(f: real, g: real, table: seq<real>, coeffs: Option<Coeffs>,
                          evalExp: (Coeffs, real) -> real)
    requires |table| == TableSize && Monotone(table)
    requires f <= g < 1.0
    ensures MapSample(f, table, coeffs, evalExp) <= MapSample(g, table, coeffs, evalExp)
  {
    TableIndexMonotone(f, g);
  }

  /** Colour channels of pixel `p` scaled by `mul` and mapped; channel 3 is
      taken from `keep`. */
  function MapPixel(p: Pixel, keep: Pixel, mul: real, table: seq<real>, coeffs: Option<Coeffs>,
                    evalExp: (Coeffs, real) -> real): Pixel
    requires |table| == TableSize
  {
    Pixel(MapSample(p.r * mul, table, coeffs, evalExp),
          MapSample(p.g * mul, table, coeffs, evalExp),
          MapSample(p.b * mul, table, coeffs, evalExp),
          keep.a)
  }

  /** apply_ev_and_curve: every colour sample is multiplied by `mul` and
      mapped; channel 3 of the output buffer is not written, so it keeps
      what `prev` (the buffer's previous contents) held. */
  function ApplyEvAndCurve(input: Image, prev: Image, wd: nat, ht: nat, mul: real,
                           table: seq<real>, coeffs: Option<Coeffs>,
                           evalExp: (Coeffs, real) -> real): (out: Image)
    requires Shaped(input, wd, ht) && Shaped(prev, wd, ht) && |table| == TableSize
    ensures Shaped(out, wd, ht)
    ensures forall j, i :: 0 <= j < ht && 0 <= i < wd ==>
      out[j][i] == MapPixel(input[j][i], prev[j][i], mul, table, coeffs, evalExp)
    ensures forall j, i :: 0 <= j < ht && 0 <= i < wd ==> out[j][i].a == prev[j][i].a
  {
    seq(ht, j requires 0 <= j < ht => seq(wd, i requires 0 <= i < wd =>
      MapPixel(input[j][i], prev[j][i], mul, table, coeffs, evalExp)))
  }

  /** `v` is what the fast path makes of sample `f`: the table entry of
      its index below 1, the extrapolation from 1 on. */
  predicate FastSampled(f: real, v: real, table: seq<real>, coeffs: Coeffs,
                        evalExp: (Coeffs, real) -> real)
    requires |table| == TableSize
  {
    (f < 1.0 ==> v == table[TableIndex(f)]) && (f >= 1.0 ==> v == evalExp(coeffs, f))
  }

  /** The non-fusion fast path of process: colour samples are mapped
      unscaled, with the extrapolation always used from 1 on, and channel 3
      is copied from the input. */
  function FastPath(input: Image, wd: nat, ht: nat, table: seq<real>, coeffs: Coeffs,
                    evalExp: (Coeffs, real) -> real): (out: Image)
    requires Shaped(input, wd, ht) && |table| == TableSize
    ensures Shaped(out, wd, ht)
    ensures forall j, i :: 0 <= j < ht && 0 <= i < wd ==> out[j][i].a == input[j][i].a
    ensures forall j, i :: 0 <= j < ht && 0 <= i < wd ==>
      FastSampled(input[j][i].r, out[j][i].r, table, coeffs, evalExp) &&
      FastSampled(input[j][i].g, out[j][i].g, table, coeffs, evalExp) &&
      FastSampled(input[j][i].b, out[j][i].b, table, coeffs, evalExp)
  {
    seq(ht, j requires 0 <= j < ht => seq(wd, i requires 0 <= i < wd =>
      var p := input[j][i];
      Pixel(if p.r < 1.0 then table[TableIndex(p.r)] else evalExp(coeffs, p.r),
            if p.g < 1.0 then table[TableIndex(p.g)] else evalExp(coeffs, p.g),
            if p.b < 1.0 then table[TableIndex(p.b)] else evalExp(coeffs, p.b),
            p.a)))
  }

  /** The fast path is apply_ev_and_curve with gain 1 and non-NULL
      coefficients, writing over the input itself so that channel 3 is the
      input's. */
  lemma FastPathIsUnitExposure(input: Image, wd: nat, ht: nat, table: seq<real>, coeffs: Coeffs,
                               evalExp: (Coeffs, real) -> real)
    requires Shaped(input, wd, ht) && |table| == TableSize
    ensures FastPath(input, wd, ht, table, coeffs, evalExp)
         == ApplyEvAndCurve(input, input, wd, ht, 1.0, table, Some(coeffs), evalExp)
  {
    var x := FastPath(input, wd, ht, table, coeffs, evalExp);
    var y := ApplyEvAndCurve(input, input, wd, ht, 1.0, table, Some(coeffs), evalExp);
    forall j, i | 0 <= j < ht && 0 <= i < wd
      ensures x[j][i] == y[j][i]
    {
      var p := input[j][i];
      assert p.r * 1.0 == p.r && p.g * 1.0 == p.g && p.b * 1.0 == p.b;
    }
    ImageExt(x, y, wd, ht);
  }
}
