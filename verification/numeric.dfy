/** Numeric helpers shared by the whole model: the C++ conversions and the
    glm functions that the animation code applies to `float`s, stated over
    `real`. */
module Numeric {

  /** An optional value (a null pointer, a missing name, a NaN). */
  datatype Option<T> = None | Some(value: T)

  function Abs(x: real): (r: real)
    ensures r >= 0.0
    ensures r == x || r == -x
  {
    if x < 0.0 then -x else x
  }

  /** `static_cast<int>(x)` on a float: truncation toward zero. */
  function Trunc(x: real): (r: int)
    ensures x >= 0.0 ==> r as real <= x < r as real + 1.0
    ensures x < 0.0 ==> r as real - 1.0 < x <= r as real
  {
    if x >= 0.0 then x.Floor else -((-x).Floor)
  }

  /** Truncating a value of `[0, n)` gives an integer of `[0, n)`. */
  lemma TruncBelow(y: real, n: nat)
    requires 0.0 <= y && y < (n as real)
    ensures 0 <= Trunc(y) < n
  {
    var r := Trunc(y);
    LessThroughMiddle(r as real, y, n as real);
  }

  lemma LessThroughMiddle(a: real, b: real, c: real)
    requires a <= b && b < c
    ensures a < c
  {
  }

  /** `glm::mod(x, y)`, defined by glm as `x - y * floor(x / y)`. */
  function FloorMod(x: real, y: real): real
    requires y != 0.0
  {
    x - y * ((x / y).Floor as real)
  }

  /** For a positive modulus the floored remainder lies in `[0, y)`. */
  lemma FloorModRange(x: real, y: real)
    requires y > 0.0
    ensures 0.0 <= FloorMod(x, y) < y
  {
    var q := x / y;
    var k := q.Floor as real;
    var f := q - k;
    assert 0.0 <= f < 1.0;
    assert x == y * q;
    assert y * q - y * k == y * f;
    assert FloorMod(x, y) == x - y * k;
    assert FloorMod(x, y) == y * f;
    ScaleFraction(y, f);
  }

  lemma ScaleFraction(y: real, f: real)
    requires y > 0.0 && 0.0 <= f < 1.0
    ensures 0.0 <= y * f < y
  {
  }

  /** A part of a positive whole is a fraction in `[0, 1)`. */
  lemma FractionOfWhole(a: real, d: real)
    requires d > 0.0 && 0.0 <= a < d
    ensures 0.0 <= a / d < 1.0
  {
    var q := a / d;
    assert q * d == a;
    assert (1.0 - q) * d == d - a;
    PositiveFactor(1.0 - q, d);
    NonNegativeFactor(q, d);
  }

  lemma PositiveFactor(x: real, d: real)
    requires d > 0.0 && x * d > 0.0
    ensures x > 0.0
  {
  }

  lemma NonNegativeFactor(x: real, d: real)
    requires d > 0.0 && x * d >= 0.0
    ensures x >= 0.0
  {
  }

  /** A product is zero only when a factor is. */
  lemma ZeroFactor(a: real, b: real)
    requires a * b == 0.0 && b != 0.0
    ensures a == 0.0
  {
    assert a == (a * b) / b;
  }

  /** Dividing and multiplying back by a non-zero value is the identity. */
  lemma DivMulCancel(a: real, d: real)
    requires d != 0.0
    ensures a / d * d == a
  {
  }

  /** Shifting by whole periods does not change the floored remainder. */
  lemma FloorModPeriodic(x: real, y: real, k: int)
    requires y > 0.0
    ensures FloorMod(x + (k as real) * y, y) == FloorMod(x, y)
  {
    var q := (x / y).Floor;
    assert (x + (k as real) * y) / y == x / y + k as real;
    assert ((x + (k as real) * y) / y).Floor == q + k;
  }

  /** A value already in `[0, y)` is its own floored remainder. */
  lemma FloorModOfInRange(x: real, y: real)
    requires 0.0 <= x < y
    ensures FloorMod(x, y) == x
  {
    assert 0.0 <= x / y < 1.0;
    assert (x / y).Floor == 0;
  }

  /** `static_cast<unsigned int>` of a 32-bit `int`: two's-complement wrap. */
  function ToUnsigned32(v: int): (r: nat)
    ensures r < 0x1_0000_0000
    ensures 0 <= v < 0x1_0000_0000 ==> r == v
    ensures -0x1_0000_0000 <= v < 0 ==> r == v + 0x1_0000_0000
  {
    v % 0x1_0000_0000
  }

  /** `static_cast<int>` of an `unsigned int`: values from 2^31 on wrap to
      negative ones, and casting back gives the original value. */
  function ToSigned32(v: nat): (r: int)
    ensures -0x8000_0000 <= r < 0x8000_0000
    ensures v < 0x8000_0000 ==> r == v
    ensures v < 0x1_0000_0000 ==> ToUnsigned32(r) == v
  {
    var w := v % 0x1_0000_0000;
    if w >= 0x8000_0000 then w - 0x1_0000_0000 else w
  }
}
