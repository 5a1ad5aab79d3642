/**
 The 2D vector helpers of the simulation, over exact reals.

 The C helpers that need `sqrtf` (vector length, normalisation, distance)
 are modelled without a square root: a length is a witness `len` with
 `len >= 0 && len * len == Dot(v, v)`, and comparisons of a length with a
 bound are restated exactly on squared quantities.
 */
module Vector2 {

  datatype Vec = Vec(x: real, y: real)

  const Zero := Vec(0.0, 0.0)

  function Add(a: Vec, b: Vec): Vec { Vec(a.x + b.x, a.y + b.y) }

  function Sub(a: Vec, b: Vec): Vec { Vec(a.x - b.x, a.y - b.y) }

  function Scale(v: Vec, k: real): Vec { Vec(v.x * k, v.y * k) }

  function Dot(a: Vec, b: Vec): real { a.x * b.x + a.y * b.y }

  /** `len` is the Euclidean length of `v` (what `sqrtf(x*x + y*y)` gives over the reals). */
  ghost predicate IsLength(v: Vec, len: real) {
    0.0 <= len && len * len == Dot(v, v)
  }

  /** The length of `v` is strictly below `bound`, decided without a square root. */
  predicate LengthBelow(v: Vec, bound: real) {
    0.0 < bound && Dot(v, v) < bound * bound
  }

  /** The length of `v` is strictly above `bound`, decided without a square root. */
  predicate LengthAbove(v: Vec, bound: real) {
    bound < 0.0 || Dot(v, v) > bound * bound
  }

  // Small facts of real arithmetic, each stated on plain variables so that
  // the solver never has to combine several nonlinear steps at once.

  lemma MulNonNegative(a: real, b: real)
    requires 0.0 <= a && 0.0 <= b
    ensures 0.0 <= a * b
  {
  }

  lemma MulPositive(a: real, b: real)
    requires 0.0 < a && 0.0 < b
    ensures 0.0 < a * b
  {
  }

  lemma DivisionCancels(x: real, d: real)
    requires d != 0.0
    ensures (x / d) * d == x
  {
  }

  lemma DivideByOne(x: real, d: real)
    requires d == 1.0
    ensures x / d == x
  {
  }

  lemma SquareMonotone(a: real, b: real)
    requires 0.0 <= a && 0.0 <= b
    ensures a < b <==> a * a < b * b
  {
    if a < b {
      MulNonNegative(a, b - a);
      MulPositive(b, b - a);
    } else {
      MulNonNegative(b, a - b);
      MulNonNegative(a, a - b);
    }
  }

  /** `LengthBelow` agrees with comparing a true length against the bound. */
  lemma {:induction false} LengthBelowExact(v: Vec, bound: real, len: real)
    requires IsLength(v, len)
    ensures LengthBelow(v, bound) <==> len < bound
  {
    if 0.0 < bound {
      SquareMonotone(len, bound);
    }
  }

  /** `LengthAbove` agrees with comparing a true length against the bound. */
  lemma {:induction false} LengthAboveExact(v: Vec, bound: real, len: real)
    requires IsLength(v, len)
    ensures LengthAbove(v, bound) <==> len > bound
  {
    if 0.0 <= bound {
      SquareMonotone(bound, len);
    }
  }

  /** The zero vector is shorter than every positive bound. */
  lemma ZeroBelow(v: Vec, bound: real)
    requires v == Zero && 0.0 < bound
    ensures LengthBelow(v, bound)
  {
    calc {
      Dot(v, v);
    ==
      0.0;
    <  { MulPositive(bound, bound); }
      bound * bound;
    }
  }

  /** A length above some bound is above every smaller bound. */
  lemma {:induction false} LengthAboveMonotone(v: Vec, lo: real, hi: real)
    requires lo <= hi && LengthAbove(v, hi)
    ensures LengthAbove(v, lo)
  {
    if 0.0 <= lo {
      SquareMonotone(hi, lo);
    }
  }

  /**
   `vector2normalize`: the zero vector for a zero length, otherwise `v`
   divided by its length, so that scaling the result back by the length
   gives `v`.
   */
  function Normalize(v: Vec, len: real): (n: Vec)
    requires IsLength(v, len)
    ensures len == 0.0 ==> n == Zero
    ensures len != 0.0 ==> Scale(n, len) == v
  {
    if len == 0.0 then
      Zero
    else
      DivisionCancels(v.x, len);
      DivisionCancels(v.y, len);
      Vec(v.x / len, v.y / len)
  }

  lemma ZeroFactor(t: real, q: real)
    requires q != 0.0 && t * q == 0.0
    ensures t == 0.0
  {
  }

  lemma ZeroFactorSquare(t: real, k: real)
    requires 0.0 < k && t * (k * k) == 0.0
    ensures t == 0.0
  {
    assert (t * k) * k == 0.0;
    assert t * k == 0.0;
  }

  /** A vector that becomes a given length `len > 0` when scaled by `len` has length one. */
  lemma ScaledUnit(n: Vec, len: real)
    requires 0.0 < len && Dot(Scale(n, len), Scale(n, len)) == len * len
    ensures Dot(n, n) == 1.0
  {
    assert (Dot(n, n) - 1.0) * (len * len) == 0.0;
    ZeroFactorSquare(Dot(n, n) - 1.0, len);
  }

  /** A nonzero vector normalises to a vector of length one. */
  lemma {:induction false} NormalizeUnit(v: Vec, len: real)
    requires IsLength(v, len) && len != 0.0
    ensures Dot(Normalize(v, len), Normalize(v, len)) == 1.0
  {
    ScaledUnit(Normalize(v, len), len);
  }

  /**
   The reflection `vector2reflect` performs, written without a square root:
   mirror `v` in the line orthogonal to `normal`. A normal of length zero
   leaves `v` as it is, as `vector2normalize` turns it into the zero vector.
   */
  function Reflect(v: Vec, normal: Vec): Vec {
    var nn := Dot(normal, normal);
    if nn == 0.0 then v else Sub(v, Scale(normal, 2.0 * Dot(v, normal) / nn))
  }

  lemma DotSubScale(v: Vec, n: Vec, c: real)
    ensures Dot(Sub(v, Scale(n, c)), Sub(v, Scale(n, c)))
         == Dot(v, v) - 2.0 * c * Dot(v, n) + c * (c * Dot(n, n))
    ensures Dot(Sub(v, Scale(n, c)), n) == Dot(v, n) - c * Dot(n, n)
  {
  }

  lemma ReflectAlgebra(v: Vec, n: Vec, c: real)
    requires c * Dot(n, n) == 2.0 * Dot(v, n)
    ensures Dot(Sub(v, Scale(n, c)), Sub(v, Scale(n, c))) == Dot(v, v)
    ensures Dot(Sub(v, Scale(n, c)), n) == -Dot(v, n)
  {
    DotSubScale(v, n, c);
    assert c * (c * Dot(n, n)) == c * (2.0 * Dot(v, n));
  }

  /** Reflection keeps the speed, and reverses the component along a nonzero normal. */
  lemma {:induction false} ReflectPreservesSpeed(v: Vec, normal: Vec)
    ensures Dot(Reflect(v, normal), Reflect(v, normal)) == Dot(v, v)
    ensures Dot(normal, normal) != 0.0 ==> Dot(Reflect(v, normal), normal) == -Dot(v, normal)
  {
    var nn := Dot(normal, normal);
    if nn != 0.0 {
      var c := 2.0 * Dot(v, normal) / nn;
      DivisionCancels(2.0 * Dot(v, normal), nn);
      ReflectAlgebra(v, normal, c);
    }
  }

  /** Reflecting twice about the same normal gives back the original vector. */
  lemma {:induction false} ReflectInvolutive(v: Vec, normal: Vec)
    ensures Reflect(Reflect(v, normal), normal) == v
  {
    var nn := Dot(normal, normal);
    if nn != 0.0 {
      ReflectPreservesSpeed(v, normal);
      var r := Reflect(v, normal);
      var c := 2.0 * Dot(v, normal) / nn;
      var c' := 2.0 * Dot(r, normal) / nn;
      assert c' == -c;
    }
  }

  lemma ScaledCoefficient(c: real, c': real, k: real, nn: real, d: real)
    requires 0.0 < k && nn != 0.0
    requires c * nn == 2.0 * d
    requires c' * (nn * (k * k)) == 2.0 * (k * d)
    ensures c' * k == c
  {
    assert ((c' * k - c) * nn) * k == 0.0;
    ZeroFactor((c' * k - c) * nn, k);
    ZeroFactor(c' * k - c, nn);
  }

  lemma ScaledDots(v: Vec, normal: Vec, k: real)
    ensures Dot(Scale(normal, k), Scale(normal, k)) == Dot(normal, normal) * (k * k)
    ensures Dot(v, Scale(normal, k)) == k * Dot(v, normal)
  {
  }

  /** For a nonzero normal the reflection coefficient shrinks by the factor the normal grows by. */
  lemma {:induction false} ScaledStep(v: Vec, normal: Vec, k: real)
    requires 0.0 < k && Dot(normal, normal) != 0.0
    ensures Dot(Scale(normal, k), Scale(normal, k)) != 0.0
    ensures Scale(Scale(normal, k), 2.0 * Dot(v, Scale(normal, k)) / Dot(Scale(normal, k), Scale(normal, k)))
         == Scale(normal, 2.0 * Dot(v, normal) / Dot(normal, normal))
  {
    var n' := Scale(normal, k);
    ScaledDots(v, normal, k);
    if Dot(n', n') == 0.0 {
      ZeroFactorSquare(Dot(normal, normal), k);
    }
    var c := 2.0 * Dot(v, normal) / Dot(normal, normal);
    var c' := 2.0 * Dot(v, n') / Dot(n', n');
    DivisionCancels(2.0 * Dot(v, normal), Dot(normal, normal));
    DivisionCancels(2.0 * Dot(v, n'), Dot(n', n'));
    ScaledCoefficient(c, c', k, Dot(normal, normal), Dot(v, normal));
    assert normal.x * k * c' == normal.x * (c' * k);
    assert normal.y * k * c' == normal.y * (c' * k);
  }

  /** Scaling the normal by a positive factor (normalising it, say) does not change the reflection. */
  lemma {:induction false} ReflectScaleInvariant(v: Vec, normal: Vec, k: real)
    requires 0.0 < k
    ensures Reflect(v, Scale(normal, k)) == Reflect(v, normal)
  {
    if Dot(normal, normal) == 0.0 {
      ScaledDots(v, normal, k);
      assert Dot(Scale(normal, k), Scale(normal, k)) == 0.0;
    } else {
      ScaledStep(v, normal, k);
    }
  }

  /** The formula `vector2reflect` applies once its normal is normalised. */
  function ReflectUnit(v: Vec, n: Vec): Vec {
    Vec(v.x - 2.0 * Dot(v, n) * n.x, v.y - 2.0 * Dot(v, n) * n.y)
  }

  /** For a unit normal the formula of `vector2reflect` is `Reflect`. */
  lemma UnitReflect(v: Vec, n: Vec)
    requires Dot(n, n) == 1.0
    ensures ReflectUnit(v, n) == Reflect(v, n)
  {
    var d := Dot(v, n);
    DivideByOne(2.0 * d, Dot(n, n));
    assert Reflect(v, n) == Vec(v.x - n.x * (2.0 * d), v.y - n.y * (2.0 * d));
  }

  /** Normalising a nonzero vector scales it by the positive factor `1 / len`. */
  lemma NormalizeIsScale(v: Vec, len: real)
    requires IsLength(v, len) && len != 0.0
    ensures 0.0 < 1.0 / len && Normalize(v, len) == Scale(v, 1.0 / len)
  {
  }

  /**
   `vector2reflect(v, normal)` normalises `normal` and applies the formula;
   for the true length of `normal` that is exactly `Reflect(v, normal)`.
   */
  lemma {:induction false} ReflectMatchesSource(v: Vec, normal: Vec, len: real)
    requires IsLength(normal, len)
    ensures ReflectUnit(v, Normalize(normal, len)) == Reflect(v, normal)
  {
    var n := Normalize(normal, len);
    if len == 0.0 {
      assert Dot(normal, normal) == 0.0 && n == Zero;
    } else {
      NormalizeUnit(normal, len);
      UnitReflect(v, n);
      NormalizeIsScale(normal, len);
      ReflectScaleInvariant(v, normal, 1.0 / len);
    }
  }
}
