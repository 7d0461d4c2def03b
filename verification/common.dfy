/** Small helpers shared by the whole model: an Option type for nullable
    pointers and optional out-parameters, the C macros MIN, MAX and CLAMP,
    the float-to-int conversion of C, and powers of two. */
module Common {

  /** A value that may be absent, as a pointer that may be NULL. */
  datatype Option<+T> = None | Some(value: T)

  /** MAX(a, b) of the C source: `a > b ? a : b`. */
  function Max(a: int, b: int): (r: int)
    ensures r >= a && r >= b && (r == a || r == b)
  {
    if a > b then a else b
  }

  /** MIN(a, b) of the C source: `a < b ? a : b`. */
  function Min(a: int, b: int): (r: int)
    ensures r <= a && r <= b && (r == a || r == b)
  {
    if a < b then a else b
  }

  /** MAX on floats. Dafny has no ordering over a type parameter, so the
      macro gets an int and a real version. */
  function MaxReal(a: real, b: real): (r: real)
    ensures r >= a && r >= b && (r == a || r == b)
  {
    if a > b then a else b
  }

  /** MIN on floats, the real version of Min. */
  function MinReal(a: real, b: real): (r: real)
    ensures r <= a && r <= b && (r == a || r == b)
  {
    if a < b then a else b
  }

  /** fabsf */
  function Abs(x: real): (r: real)
    ensures r >= 0.0 && (r == x || r == -x)
  {
    if x < 0.0 then -x else x
  }

  /** CLAMP(x, lo, hi): `x > hi ? hi : (x < lo ? lo : x)`. */
  function Clamp(x: int, lo: int, hi: int): (r: int)
    requires lo <= hi
    ensures lo <= r <= hi
    ensures lo <= x <= hi ==> r == x
    ensures x < lo ==> r == lo
    ensures x > hi ==> r == hi
  {
    if x > hi then hi else if x < lo then lo else x
  }

  /** The C conversion `(int)f`: truncation toward zero. */
  function Trunc(f: real): (t: int)
    ensures f >= 0.0 ==> t as real <= f < t as real + 1.0
    ensures f < 0.0 ==> t as real - 1.0 < f <= t as real
  {
    if f >= 0.0 then f.Floor else -((-f).Floor)
  }

  /** ceilf of a real: the least integer not below it. */
  function Ceil(f: real): (c: int)
    ensures c as real - 1.0 < f <= c as real
  {
    -((-f).Floor)
  }

  /** Truncation toward zero never decreases when its argument grows. */
  lemma TruncMonotone(f: real, g: real)
    requires f <= g
    ensures Trunc(f) <= Trunc(g)
  {
    if f >= 0.0 {
      assert Trunc(f) as real <= f <= g;
    } else if g < 0.0 {
      assert f <= g <= Trunc(g) as real;
      assert Trunc(f) as real - 1.0 < g;
    }
  }

  function Pow2(k: nat): (r: nat)
    ensures r >= 1
  {
    if k == 0 then 1 else 2 * Pow2(k - 1)
  }
}
