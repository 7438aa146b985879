/**
 * Two-component vectors over the reals, standing in for the `f32` vector type
 * `Vec2` of the graphics library (no rounding, no NaN, no infinity), together
 * with the scalar helpers `min`, `max` and `abs`, and a square root that is
 * known only through its defining property.
 */
module Vectors {

  datatype Vec2 = Vec2(x: real, y: real)
  {
    function Add(v: Vec2): Vec2 { Vec2(x + v.x, y + v.y) }

    function Sub(v: Vec2): Vec2 { Vec2(x - v.x, y - v.y) }

    function Neg(): Vec2 { Vec2(-x, -y) }

    /** `v * k` for a scalar `k`. */
    function Scale(k: real): Vec2 { Vec2(x * k, y * k) }

    /** `v / k` for a nonzero scalar `k`. */
    function DivScalar(k: real): Vec2
      requires k != 0.0
    {
      Vec2(x / k, y / k)
    }

    /** Componentwise product `v * w`. */
    function Mul(v: Vec2): Vec2 { Vec2(x * v.x, y * v.y) }

    /** Componentwise quotient `v / w` of a vector by one with nonzero components. */
    function Div(v: Vec2): Vec2
      requires v.x != 0.0 && v.y != 0.0
    {
      Vec2(x / v.x, y / v.y)
    }

    function LengthSquared(): real { x * x + y * y }
  }

  const Zero := Vec2(0.0, 0.0)
  const UnitX := Vec2(1.0, 0.0)
  const UnitY := Vec2(0.0, 1.0)

  /** `f32::min` on ordinary numbers. */
  function Min(a: real, b: real): real { if a <= b then a else b }

  /** `f32::max` on ordinary numbers. */
  function Max(a: real, b: real): real { if a >= b then a else b }

  /** `f32::abs`. */
  function Abs(a: real): real { if a < 0.0 then -a else a }

  /** One of the four axis-aligned unit vectors +X, -X, +Y, -Y. */
  predicate IsAxisUnit(v: Vec2) {
    v == UnitX || v == UnitX.Neg() || v == UnitY || v == UnitY.Neg()
  }

  /**
   * What the model knows of the library's square root: on non-negative reals it
   * is non-negative and squares back to its argument. Nothing else is assumed.
   */
  ghost predicate IsSqrt(sqrt: real -> real) {
    forall q :: 0.0 <= q ==> 0.0 <= sqrt(q) && sqrt(q) * sqrt(q) == q
  }

  // Facts of real arithmetic, stated on plain reals so that each proof sees
  // the products it needs and nothing else.

  lemma ProductPositive(a: real, b: real)
    requires 0.0 < a && 0.0 < b
    ensures 0.0 < a * b
  {
  }

  lemma ProductMonotone(a: real, b: real, c: real)
    requires 0.0 <= a && b <= c
    ensures a * b <= a * c
  {
  }

  lemma NegativeFactor(a: real, d: real)
    requires 0.0 <= d && a * d < 0.0
    ensures a < 0.0
  {
    if 0.0 <= a {
      ProductMonotone(d, 0.0, a);
    }
  }

  lemma SumOfSquaresNonNegative(a: real, b: real)
    ensures 0.0 <= a * a + b * b
  {
  }

  lemma SumOfSquaresPositive(a: real, b: real)
    requires a != 0.0 || b != 0.0
    ensures 0.0 < a * a + b * b
  {
  }

  /** The only non-negative square root of zero is zero. */
  lemma RootOfZero(r: real)
    requires 0.0 <= r && r * r == 0.0
    ensures r == 0.0
  {
    if 0.0 < r {
      ProductPositive(r, r);
      calc {
        0.0;
      <
        r * r;
      ==
        0.0;
      }
    }
  }

  /** The only non-negative square root of one is one. */
  lemma RootOfOne(r: real)
    requires 0.0 <= r && r * r == 1.0
    ensures r == 1.0
  {
    if r < 1.0 {
      ProductMonotone(r, r, 1.0);
    } else if 1.0 < r {
      ProductMonotone(r, 1.0, r);
    }
  }

  /** A non-negative root of `dx^2 + dy^2` is positive unless both are zero. */
  lemma RootOfPositive(dx: real, dy: real, r: real)
    requires dx != 0.0 || dy != 0.0
    requires 0.0 <= r && r * r == dx * dx + dy * dy
    ensures 0.0 < r
  {
    SumOfSquaresPositive(dx, dy);
    if r == 0.0 {
      calc {
        0.0;
      <
        dx * dx + dy * dy;
      ==
        r * r;
      ==
        0.0 * 0.0;
      ==
        0.0;
      }
    }
  }

  /** Dividing both components by a root of `dx^2 + dy^2` leaves unit length. */
  lemma ScaledByInverseRoot(dx: real, dy: real, r: real, k: real)
    requires 0.0 < r && r * r == dx * dx + dy * dy && k == 1.0 / r
    ensures (dx * k) * (dx * k) + (dy * k) * (dy * k) == 1.0
    ensures (dx * k) * r == dx && (dy * k) * r == dy
  {
    assert r * k == 1.0;
    calc {
      (dx * k) * (dx * k) + (dy * k) * (dy * k);
    ==
      (dx * dx + dy * dy) * (k * k);
    ==
      (r * r) * (k * k);
    ==
      (r * k) * (r * k);
    }
  }

  lemma DifferenceSquares(a: real, b: real)
    ensures (a - b) * (a - b) == (b - a) * (b - a)
  {
  }

  /** Dividing both components by a positive root of `dx^2 + dy^2` leaves unit length. */
  lemma DividedByRoot(dx: real, dy: real, r: real)
    requires 0.0 < r && r * r == dx * dx + dy * dy
    ensures (dx / r) * (dx / r) + (dy / r) * (dy / r) == 1.0
    ensures (dx / r) * r == dx && (dy / r) * r == dy
  {
    var k := 1.0 / r;
    assert dx / r == dx * k && dy / r == dy * k;
    ScaledByInverseRoot(dx, dy, r, k);
  }

  /** The norm of `(dx, dy)`: the square root of the sum of squares. */
  function Hypot(dx: real, dy: real, sqrt: real -> real): (r: real)
    requires IsSqrt(sqrt)
    ensures 0.0 <= r && r * r == dx * dx + dy * dy
    ensures dx == 0.0 && dy == 0.0 ==> r == 0.0
    ensures dx != 0.0 || dy != 0.0 ==> 0.0 < r
  {
    var q := dx * dx + dy * dy;
    SumOfSquaresNonNegative(dx, dy);
    var r := sqrt(q);
    assert 0.0 <= r && r * r == q;
    if dx == 0.0 && dy == 0.0 then
      assert q == 0.0;
      RootOfZero(r);
      r
    else
      RootOfPositive(dx, dy, r);
      r
  }

  /** `Vec2::length`: the Euclidean norm, zero exactly for the zero vector. */
  function Length(v: Vec2, sqrt: real -> real): (r: real)
    requires IsSqrt(sqrt)
    ensures 0.0 <= r && r * r == v.LengthSquared()
    ensures v == Zero ==> r == 0.0
    ensures v != Zero ==> 0.0 < r
  {
    Hypot(v.x, v.y, sqrt)
  }

  /** `a.distance(b)`: the length of `a - b`, zero exactly when the points coincide. */
  function Distance(a: Vec2, b: Vec2, sqrt: real -> real): (r: real)
    requires IsSqrt(sqrt)
    ensures 0.0 <= r && r * r == a.Sub(b).LengthSquared()
    ensures a == b ==> r == 0.0
    ensures a != b ==> 0.0 < r
  {
    Length(a.Sub(b), sqrt)
  }

  /** Two pairs with the same sum of squares have the same norm. */
  lemma HypotOfEqualSquares(dx: real, dy: real, ex: real, ey: real, sqrt: real -> real)
    requires IsSqrt(sqrt) && dx * dx + dy * dy == ex * ex + ey * ey
    ensures Hypot(dx, dy, sqrt) == Hypot(ex, ey, sqrt)
  {
  }

  /** The distance from `a` to `b` is the distance from `b` to `a`. */
  lemma DistanceSymmetric(a: Vec2, b: Vec2, sqrt: real -> real)
    requires IsSqrt(sqrt)
    ensures Distance(a, b, sqrt) == Distance(b, a, sqrt)
  {
    assert Distance(a, b, sqrt) == Hypot(a.x - b.x, a.y - b.y, sqrt);
    assert Distance(b, a, sqrt) == Hypot(b.x - a.x, b.y - a.y, sqrt);
    DifferenceSquares(a.x, b.x);
    DifferenceSquares(a.y, b.y);
    HypotOfEqualSquares(a.x - b.x, a.y - b.y, b.x - a.x, b.y - a.y, sqrt);
  }

  /** A nonzero vector divided by its length has unit length and scales back to itself. */
  lemma DividedByLength(v: Vec2, sqrt: real -> real)
    requires IsSqrt(sqrt) && v != Zero
    ensures Length(v, sqrt) != 0.0
    ensures v.DivScalar(Length(v, sqrt)).LengthSquared() == 1.0
    ensures v.DivScalar(Length(v, sqrt)).Scale(Length(v, sqrt)) == v
  {
    DividedByRoot(v.x, v.y, Length(v, sqrt));
  }

  /**
   * `Vec2::normalize` of a nonzero vector, `v * (1 / |v|)`: the result has unit
   * length and scaling it back by `|v|` gives `v`.
   */
  function Normalize(v: Vec2, sqrt: real -> real): (r: Vec2)
    requires IsSqrt(sqrt) && v != Zero
    ensures r.LengthSquared() == 1.0
    ensures r.Scale(Length(v, sqrt)) == v
  {
    var len := Length(v, sqrt);
    var k := 1.0 / len;
    ScaledByInverseRoot(v.x, v.y, len, k);
    v.Scale(k)
  }

  /** A vector of unit squared length has length one. */
  lemma LengthOfUnit(v: Vec2, sqrt: real -> real)
    requires IsSqrt(sqrt) && v.x * v.x + v.y * v.y == 1.0
    ensures Length(v, sqrt) == 1.0
  {
    RootOfOne(Hypot(v.x, v.y, sqrt));
  }

  lemma AxisSquares(a: real, b: real)
    requires ((a == 1.0 || a == -1.0) && b == 0.0) || (a == 0.0 && (b == 1.0 || b == -1.0))
    ensures a * a + b * b == 1.0
  {
  }

  lemma AxisUnitSquared(v: Vec2)
    requires IsAxisUnit(v)
    ensures v.LengthSquared() == 1.0
  {
    AxisSquares(v.x, v.y);
  }

  /** Each axis-aligned unit vector has length one. */
  lemma AxisUnitLength(v: Vec2, sqrt: real -> real)
    requires IsSqrt(sqrt) && IsAxisUnit(v)
    ensures Length(v, sqrt) == 1.0
  {
    AxisSquares(v.x, v.y);
    LengthOfUnit(v, sqrt);
  }

  /** Normalising a vector of length one leaves it as it is. */
  lemma NormalizeOfLengthOne(v: Vec2, sqrt: real -> real)
    requires IsSqrt(sqrt) && v != Zero && Length(v, sqrt) == 1.0
    ensures Normalize(v, sqrt) == v
  {
    assert Normalize(v, sqrt) == v.Scale(1.0 / 1.0);
  }

  /** An axis-aligned unit vector is already normalised. */
  lemma NormalizeAxisUnit(v: Vec2, sqrt: real -> real)
    requires IsSqrt(sqrt) && IsAxisUnit(v)
    ensures v != Zero && Normalize(v, sqrt) == v
  {
    AxisUnitLength(v, sqrt);
    NormalizeOfLengthOne(v, sqrt);
  }

  lemma SquareOfNegation(a: real)
    ensures (-a) * (-a) == a * a
  {
  }

  /** Scaling by -1 reverses a vector and keeps its length. */
  lemma ReversedByMinusOne(v: Vec2)
    ensures v.Scale(-1.0) == v.Neg()
    ensures v.Neg().LengthSquared() == v.LengthSquared()
  {
    SquareOfNegation(v.x);
    SquareOfNegation(v.y);
  }
}
