/**
 * The narrow-phase contact generator: circle and axis-aligned box colliders,
 * placed in the world by the position of the body that owns them, and the
 * pairwise tests that report at most one contact per pair.
 *
 * Each test reads nothing of a body but its position, so bodies are passed
 * here as their positions.
 */
module Colliders {
  import opened Wrappers
  import opened Vectors

  /** A collider in the local frame of its body. */
  datatype Collider =
    | Circle(offset: Vec2, radius: real)
    | AABB(min: Vec2, max: Vec2)
  {
    /** The world corners of a box on a body at `bodyPos`; `None` for a circle. */
    function WorldAabb(bodyPos: Vec2): (r: Option<(Vec2, Vec2)>)
      ensures r.Some? <==> AABB?
      ensures r.Some? ==> r.value.0.Sub(bodyPos) == min && r.value.1.Sub(bodyPos) == max
    {
      match this
      case AABB(min, max) => Some((bodyPos.Add(min), bodyPos.Add(max)))
      case Circle(_, _) => None
    }

    /** The world centre of a circle on a body at `ownerPos`; `None` for a box. */
    function WorldCircle(ownerPos: Vec2): (r: Option<Vec2>)
      ensures r.Some? <==> Circle?
      ensures r.Some? ==> r.value.Sub(ownerPos) == offset
    {
      match this
      case Circle(offset, _) => Some(ownerPos.Add(offset))
      case AABB(_, _) => None
    }

    /**
     * The contact of this collider on a body at `bodyA` with `other` on a body
     * at `bodyB`, if they touch: dispatched on the two shapes, reported with
     * the given indices, a non-negative depth and a unit normal.
     */
    function CollidesWith(bodyA: Vec2, bodyB: Vec2, other: Collider, bodyAIndex: nat, bodyBIndex: nat,
                          sqrt: real -> real): (r: Option<Contact>)
      requires IsSqrt(sqrt)
      requires Circle? && other.Circle? ==> CirclesDivisible(this, other, bodyA, bodyB)
      ensures r.Some? ==> r.value.bodyAIndex == bodyAIndex && r.value.bodyBIndex == bodyBIndex
      ensures r.Some? ==> 0.0 <= r.value.penDepth && r.value.normal.LengthSquared() == 1.0
      ensures AABB? && other.AABB? && Separated(bodyA.Add(min), bodyA.Add(max), bodyB.Add(other.min), bodyB.Add(other.max))
              ==> r.None?
    {
      match (this, other)
      case (Circle(_, _), Circle(_, _)) =>
        CircleCircle(this, other, bodyA, bodyB, bodyAIndex, bodyBIndex, sqrt)
      case (AABB(_, _), Circle(_, _)) =>
        TestAabbCircle(this, other, bodyA, bodyB, bodyAIndex, bodyBIndex, sqrt)
      case (Circle(_, _), AABB(_, _)) =>
        TestCircleAabb(this, other, bodyA, bodyB, bodyAIndex, bodyBIndex, sqrt)
      case (AABB(_, _), AABB(_, _)) =>
        var minMaxA := WorldAabb(bodyA).value;
        var minMaxB := other.WorldAabb(bodyB).value;
        BoxBoxUnitNormal(minMaxA.0, minMaxA.1, minMaxB.0, minMaxB.1, bodyAIndex, bodyBIndex);
        BoxBox(minMaxA.0, minMaxA.1, minMaxB.0, minMaxB.1, bodyAIndex, bodyBIndex)
    }
  }

  /**
   * One contact between body A and body B; the indices name the two bodies in
   * the caller's body collection.
   */
  datatype Contact = Contact(point: Vec2, normal: Vec2, penDepth: real, bodyAIndex: nat, bodyBIndex: nat)

  /** The machine epsilon of `f32`, 2^-23, the default tolerance of `abs_diff_eq!`. */
  const Epsilon: real := 0.00000011920928955078125

  /** Both components lie within `Epsilon` of zero. */
  function IsCloseToZero(v: Vec2): (r: bool)
    ensures r <==> -Epsilon <= v.x <= Epsilon && -Epsilon <= v.y <= Epsilon
    ensures !r ==> v != Zero
  {
    Abs(v.x - 0.0) <= Epsilon && Abs(v.y - 0.0) <= Epsilon
  }

  /** The point of `[lo, hi]` nearest to `p`, written out as an independent reference. */
  function Clamp(p: real, lo: real, hi: real): real {
    Max(lo, Min(p, hi))
  }

  /**
   * One axis of the nearest-point search, with its five branches; over the
   * reals the first three branches cover every input.
   */
  function NearestCoord(p: real, lo: real, hi: real): (r: real)
    ensures lo <= hi ==> r == Clamp(p, lo, hi)
    ensures lo <= hi ==> lo <= r <= hi
    ensures lo <= p <= hi ==> r == p
  {
    if p <= hi && p >= lo then p
    else if p < lo then lo
    else if p > hi then hi
    else if p - lo > hi - p then hi
    else lo
  }

  /** No point of a well-ordered interval is nearer to `p` than `NearestCoord` picks. */
  lemma NearestCoordIsNearest(p: real, lo: real, hi: real, q: real)
    requires lo <= q <= hi
    ensures Abs(p - NearestCoord(p, lo, hi)) <= Abs(p - q)
  {
  }

  /** The fourth and fifth branch of `NearestCoord` are never taken. */
  lemma NearestCoordFallbackUnreachable(p: real, lo: real, hi: real)
    ensures (p <= hi && p >= lo) || p < lo || p > hi
  {
  }

  /** `p` lies in the box with corners `lo` and `hi`. */
  predicate InBox(p: Vec2, lo: Vec2, hi: Vec2) {
    lo.x <= p.x <= hi.x && lo.y <= p.y <= hi.y
  }

  /**
   * The point of a box collider on a body at `bodyPos` nearest to `point`,
   * clamping each coordinate into the box's world extent. The source panics
   * when given a circle, so the model requires a box.
   */
  function PointAabbNearestPoint(point: Vec2, aabb: Collider, bodyPos: Vec2): (r: Vec2)
    requires aabb.AABB?
    ensures var lo := bodyPos.Add(aabb.min); var hi := bodyPos.Add(aabb.max);
      && (lo.x <= hi.x && lo.y <= hi.y ==> InBox(r, lo, hi))
      && (InBox(point, lo, hi) ==> r == point)
      && (lo.x <= hi.x ==> r.x == Clamp(point.x, lo.x, hi.x))
      && (lo.y <= hi.y ==> r.y == Clamp(point.y, lo.y, hi.y))
  {
    var worldMin := bodyPos.Add(aabb.min);
    var worldMax := bodyPos.Add(aabb.max);
    Vec2(NearestCoord(point.x, worldMin.x, worldMax.x), NearestCoord(point.y, worldMin.y, worldMax.y))
  }

  /**
   * The axis normal of the box face nearest to `center`, chosen by four `if`s
   * in sequence (left, right, bottom, top), each overriding the one before when
   * its face is at the minimum distance, starting from `initial`.
   */
  function FaceNormal(center: Vec2, worldMin: Vec2, worldMax: Vec2, initial: Vec2): (r: Vec2)
    ensures IsAxisUnit(r)
    ensures var l := Abs(center.x - worldMin.x); var rt := Abs(center.x - worldMax.x);
      var b := Abs(center.y - worldMin.y); var t := Abs(center.y - worldMax.y);
      && (r == UnitY <==> t <= l && t <= rt && t <= b)
      && (r == UnitY.Neg() <==> b <= l && b <= rt && b < t)
      && (r == UnitX <==> rt <= l && rt < b && rt < t)
      && (r == UnitX.Neg() <==> l < rt && l < b && l < t)
  {
    var left := Abs(center.x - worldMin.x);
    var right := Abs(center.x - worldMax.x);
    var bottom := Abs(center.y - worldMin.y);
    var top := Abs(center.y - worldMax.y);
    var m := Min(left, Min(right, Min(bottom, top)));
    var n1 := if m == left then UnitX.Neg() else initial;
    var n2 := if m == right then UnitX else n1;
    var n3 := if m == bottom then UnitY.Neg() else n2;
    var n4 := if m == top then UnitY else n3;
    n4
  }

  /** The boxes `[minA, maxA]` and `[minB, maxB]` are apart on some axis. */
  predicate Separated(minA: Vec2, maxA: Vec2, minB: Vec2, maxB: Vec2) {
    maxA.x < minB.x || maxB.x < minA.x || maxA.y < minB.y || maxB.y < minA.y
  }

  /** The length of the overlap of `[loA, hiA]` and `[loB, hiB]`, negative when apart. */
  function Overlap(loA: real, hiA: real, loB: real, hiB: real): real {
    Min(hiA, hiB) - Max(loA, loB)
  }

  /**
   * The box-box normal: along Y when the boxes overlap more in X than in Y,
   * along X otherwise, pointing down (left) when the bottom (left) penetration
   * is the smaller one.
   */
  function SeparatingNormal(xOverlap: real, yOverlap: real, topPenetration: real, bottomPenetration: real,
                            leftPenetration: real, rightPenetration: real): (r: Vec2)
    ensures IsAxisUnit(r)
    ensures r.y != 0.0 <==> xOverlap > yOverlap
    ensures r == UnitY.Neg() <==> xOverlap > yOverlap && bottomPenetration < topPenetration
    ensures r == UnitX.Neg() <==> xOverlap <= yOverlap && leftPenetration < rightPenetration
  {
    if xOverlap > yOverlap then
      if bottomPenetration < topPenetration then UnitY.Scale(-1.0) else UnitY
    else
      if leftPenetration < rightPenetration then UnitX.Scale(-1.0) else UnitX
  }

  /**
   * Exchanging the two boxes exchanges the penetrations on each axis; the
   * normal is then reversed unless the two penetrations on its axis are equal.
   */
  lemma SeparatingNormalSwap(xOverlap: real, yOverlap: real, top: real, bottom: real, left: real, right: real)
    ensures var n := SeparatingNormal(xOverlap, yOverlap, top, bottom, left, right);
      var m := SeparatingNormal(xOverlap, yOverlap, bottom, top, right, left);
      if (n.y != 0.0 && top == bottom) || (n.y == 0.0 && left == right) then m == n else m == n.Neg()
  {
  }

  /** The centre of the rectangle where the two boxes overlap. */
  function OverlapMidpoint(minA: Vec2, maxA: Vec2, minB: Vec2, maxB: Vec2): Vec2 {
    Vec2((Max(minA.x, minB.x) + Min(maxA.x, maxB.x)) / 2.0, (Max(minA.y, minB.y) + Min(maxA.y, maxB.y)) / 2.0)
  }

  /** The box-box test on the world corners of the two boxes. */
  function BoxBox(minA: Vec2, maxA: Vec2, minB: Vec2, maxB: Vec2, bodyAIndex: nat, bodyBIndex: nat): (r: Option<Contact>)
    ensures Separated(minA, maxA, minB, maxB) ==> r.None?
    ensures r.Some? ==> && r.value.penDepth == Min(Overlap(minA.x, maxA.x, minB.x, maxB.x), Overlap(minA.y, maxA.y, minB.y, maxB.y))
                        && 0.0 <= r.value.penDepth
                        && r.value.bodyAIndex == bodyAIndex && r.value.bodyBIndex == bodyBIndex
                        && IsAxisUnit(r.value.normal)
  {
    var isColliding := maxA.x >= minB.x && maxB.x >= minA.x && maxA.y >= minB.y && maxB.y >= minA.y;
    var overlapMin := Vec2(Max(minA.x, minB.x), Max(minA.y, minB.y));
    var overlapMax := Vec2(Min(maxA.x, maxB.x), Min(maxA.y, maxB.y));
    var contactPoint := overlapMin.Add(overlapMax).Scale(0.5);
    if isColliding then
      var xOverlap := Overlap(minA.x, maxA.x, minB.x, maxB.x);
      var yOverlap := Overlap(minA.y, maxA.y, minB.y, maxB.y);
      var depth := Min(xOverlap, yOverlap);
      if depth < 0.0 then None
      else
        var normal := SeparatingNormal(xOverlap, yOverlap, maxA.y - minB.y, maxB.y - minA.y,
                                       maxA.x - minB.x, maxB.x - minA.x);
        Some(Contact(contactPoint, normal, depth, bodyAIndex, bodyBIndex))
    else
      None
  }

  /** For boxes with ordered corners the test reports a contact exactly when they are not separated. */
  lemma BoxBoxExactForOrderedBoxes(minA: Vec2, maxA: Vec2, minB: Vec2, maxB: Vec2, i: nat, j: nat)
    requires minA.x <= maxA.x && minA.y <= maxA.y && minB.x <= maxB.x && minB.y <= maxB.y
    ensures BoxBox(minA, maxA, minB, maxB, i, j).Some? <==> !Separated(minA, maxA, minB, maxB)
  {
  }

  /** For boxes with ordered corners that pass the interval test, both overlaps are non-negative. */
  lemma OverlapsOfCollidingBoxes(minA: Vec2, maxA: Vec2, minB: Vec2, maxB: Vec2)
    requires minA.x <= maxA.x && minA.y <= maxA.y && minB.x <= maxB.x && minB.y <= maxB.y
    requires !Separated(minA, maxA, minB, maxB)
    ensures 0.0 <= Overlap(minA.x, maxA.x, minB.x, maxB.x) && 0.0 <= Overlap(minA.y, maxA.y, minB.y, maxB.y)
  {
  }

  /**
   * The normal of a box-box contact lies along Y exactly when the boxes
   * overlap more in X than in Y, and points the negative way exactly when the
   * negative-side penetration is the smaller one.
   */
  lemma BoxBoxNormal(minA: Vec2, maxA: Vec2, minB: Vec2, maxB: Vec2, i: nat, j: nat)
    requires BoxBox(minA, maxA, minB, maxB, i, j).Some?
    ensures var n := BoxBox(minA, maxA, minB, maxB, i, j).value.normal;
      var xOverlap := Overlap(minA.x, maxA.x, minB.x, maxB.x);
      var yOverlap := Overlap(minA.y, maxA.y, minB.y, maxB.y);
      && (n.y != 0.0 <==> xOverlap > yOverlap)
      && (n == UnitY.Neg() <==> xOverlap > yOverlap && maxB.y - minA.y < maxA.y - minB.y)
      && (n == UnitX.Neg() <==> xOverlap <= yOverlap && maxA.x - minB.x < maxB.x - minA.x)
  {
  }

  /** A box-box contact normal has unit length. */
  lemma BoxBoxUnitNormal(minA: Vec2, maxA: Vec2, minB: Vec2, maxB: Vec2, i: nat, j: nat)
    ensures BoxBox(minA, maxA, minB, maxB, i, j).Some? ==> BoxBox(minA, maxA, minB, maxB, i, j).value.normal.LengthSquared() == 1.0
  {
    if BoxBox(minA, maxA, minB, maxB, i, j).Some? {
      AxisUnitSquared(BoxBox(minA, maxA, minB, maxB, i, j).value.normal);
    }
  }

  /**
   * The two axes use opposite sign conventions. Along Y the normal points from
   * A toward B: with A above B it is -Y.
   */
  lemma BoxBoxNormalAlongYPointsTowardB()
    ensures var r := BoxBox(Vec2(0.0, 2.0), Vec2(10.0, 4.0), Vec2(0.0, 0.0), Vec2(10.0, 3.0), 0, 1);
      r.Some? && r.value.normal == UnitY.Neg()
  {
    BoxBoxCases(Vec2(0.0, 2.0), Vec2(10.0, 4.0), Vec2(0.0, 0.0), Vec2(10.0, 3.0), 0, 1);
    assert Overlap(0.0, 10.0, 0.0, 10.0) == 10.0;
    assert Overlap(2.0, 4.0, 0.0, 3.0) == 1.0;
  }

  /**
   * Along X the normal points from B toward A: with B to the right of A it
   * is -X.
   */
  lemma BoxBoxNormalAlongXPointsTowardA()
    ensures var r := BoxBox(Vec2(0.0, 0.0), Vec2(2.0, 10.0), Vec2(1.0, 0.0), Vec2(3.0, 10.0), 0, 1);
      r.Some? && r.value.normal == UnitX.Neg()
  {
    BoxBoxCases(Vec2(0.0, 0.0), Vec2(2.0, 10.0), Vec2(1.0, 0.0), Vec2(3.0, 10.0), 0, 1);
    assert Overlap(0.0, 2.0, 1.0, 3.0) == 1.0;
    assert Overlap(0.0, 10.0, 0.0, 10.0) == 10.0;
  }

  /** The point of a box-box contact is the centre of the overlap rectangle. */
  lemma BoxBoxPoint(minA: Vec2, maxA: Vec2, minB: Vec2, maxB: Vec2, i: nat, j: nat)
    requires BoxBox(minA, maxA, minB, maxB, i, j).Some?
    ensures BoxBox(minA, maxA, minB, maxB, i, j).value.point == OverlapMidpoint(minA, maxA, minB, maxB)
  {
  }

  /** Boxes that touch along an edge or at a corner yield a contact of depth zero. */
  lemma BoxBoxTouching(minA: Vec2, maxA: Vec2, minB: Vec2, maxB: Vec2, i: nat, j: nat)
    requires minA.x <= maxA.x && minA.y <= maxA.y && minB.x <= maxB.x && minB.y <= maxB.y
    requires !Separated(minA, maxA, minB, maxB)
    requires maxA.x == minB.x || maxB.x == minA.x || maxA.y == minB.y || maxB.y == minA.y
    ensures BoxBox(minA, maxA, minB, maxB, i, j).Some?
    ensures BoxBox(minA, maxA, minB, maxB, i, j).value.penDepth == 0.0
  {
  }

  /**
   * The `depth < 0` guard is dead for boxes whose corners are in order, but a
   * box with its corners swapped on one axis reaches it: the boxes below pass
   * the interval test and still yield no contact.
   */
  lemma BoxBoxDepthGuardReachable()
    ensures var minA, maxA := Vec2(0.0, 0.0), Vec2(1.0, 1.0);
      var minB, maxB := Vec2(0.8, 0.0), Vec2(0.2, 1.0);
      && !Separated(minA, maxA, minB, maxB)
      && BoxBox(minA, maxA, minB, maxB, 0, 1).None?
  {
    var minA, maxA := Vec2(0.0, 0.0), Vec2(1.0, 1.0);
    var minB, maxB := Vec2(0.8, 0.0), Vec2(0.2, 1.0);
    BoxBoxCases(minA, maxA, minB, maxB, 0, 1);
    assert Overlap(minA.x, maxA.x, minB.x, maxB.x) < 0.0;
  }

  /**
   * Testing the pair the other way round gives the same depth and point and the
   * indices swapped; the normal is reversed, except when the two penetrations on
   * the chosen axis are equal, where both calls choose the positive direction.
   */
  lemma BoxBoxSwap(minA: Vec2, maxA: Vec2, minB: Vec2, maxB: Vec2, i: nat, j: nat)
    ensures var r := BoxBox(minA, maxA, minB, maxB, i, j);
      var s := BoxBox(minB, maxB, minA, maxA, j, i);
      && (r.Some? <==> s.Some?)
      && (r.Some? ==>
            && s.value.penDepth == r.value.penDepth
            && s.value.point == r.value.point
            && s.value.bodyAIndex == j && s.value.bodyBIndex == i
            && (if (r.value.normal.y != 0.0 && maxA.y - minB.y == maxB.y - minA.y)
                   || (r.value.normal.y == 0.0 && maxA.x - minB.x == maxB.x - minA.x)
                then s.value.normal == r.value.normal
                else s.value.normal == r.value.normal.Neg()))
  {
    var xOverlap := Overlap(minA.x, maxA.x, minB.x, maxB.x);
    var yOverlap := Overlap(minA.y, maxA.y, minB.y, maxB.y);
    OverlapSwap(minA.x, maxA.x, minB.x, maxB.x);
    OverlapSwap(minA.y, maxA.y, minB.y, maxB.y);
    BoxBoxCases(minA, maxA, minB, maxB, i, j);
    BoxBoxCases(minB, maxB, minA, maxA, j, i);
    SeparatingNormalSwap(xOverlap, yOverlap, maxA.y - minB.y, maxB.y - minA.y, maxA.x - minB.x, maxB.x - minA.x);
  }

  /** `BoxBox` spelled out case by case, for the proof of `BoxBoxSwap`. */
  lemma BoxBoxCases(minA: Vec2, maxA: Vec2, minB: Vec2, maxB: Vec2, i: nat, j: nat)
    ensures var xOverlap := Overlap(minA.x, maxA.x, minB.x, maxB.x);
      var yOverlap := Overlap(minA.y, maxA.y, minB.y, maxB.y);
      BoxBox(minA, maxA, minB, maxB, i, j)
      == if maxA.x >= minB.x && maxB.x >= minA.x && maxA.y >= minB.y && maxB.y >= minA.y && 0.0 <= Min(xOverlap, yOverlap)
         then Some(Contact(OverlapMidpoint(minA, maxA, minB, maxB),
                           SeparatingNormal(xOverlap, yOverlap, maxA.y - minB.y, maxB.y - minA.y, maxA.x - minB.x, maxB.x - minA.x),
                           Min(xOverlap, yOverlap), i, j))
         else None
  {
    var xOverlap := Overlap(minA.x, maxA.x, minB.x, maxB.x);
    var yOverlap := Overlap(minA.y, maxA.y, minB.y, maxB.y);
    var point := Vec2(Max(minA.x, minB.x), Max(minA.y, minB.y)).Add(Vec2(Min(maxA.x, maxB.x), Min(maxA.y, maxB.y))).Scale(0.5);
    assert point == OverlapMidpoint(minA, maxA, minB, maxB);
  }

  lemma OverlapSwap(loA: real, hiA: real, loB: real, hiB: real)
    ensures Overlap(loB, hiB, loA, hiA) == Overlap(loA, hiA, loB, hiB)
    ensures Max(loB, loA) == Max(loA, loB) && Min(hiB, hiA) == Min(hiA, hiB)
  {
  }

  /** Where the contact point lies on the line between the centres: see `CircleCircle`. */
  lemma SurfaceMidpoint(a: real, b: real, n: real, d: real, ra: real, rb: real)
    requires b - a == n * d
    ensures ((a + n * ra) + (b - n * rb)) * 0.5 == a + n * ((d + ra - rb) * 0.5)
  {
  }

  /**
   * The circle-circle test. The normal divides by the distance of the centres,
   * which the source leaves undefined (a NaN normal) for coincident centres, so
   * the model requires the centres to differ whenever the circles overlap.
   */
  function CircleCircle(a: Collider, b: Collider, bodyA: Vec2, bodyB: Vec2, bodyAIndex: nat, bodyBIndex: nat,
                        sqrt: real -> real): (r: Option<Contact>)
    requires IsSqrt(sqrt) && a.Circle? && b.Circle?
    requires CirclesDivisible(a, b, bodyA, bodyB)
    ensures var posA := bodyA.Add(a.offset); var posB := bodyB.Add(b.offset);
      var dist := Distance(posA, posB, sqrt);
      && (r.Some? <==> dist < a.radius + b.radius)
      && (r.Some? ==>
            && r.value.penDepth == a.radius + b.radius - dist
            && 0.0 < r.value.penDepth
            && r.value.normal.LengthSquared() == 1.0
            && r.value.normal.Scale(dist) == posB.Sub(posA)
            && r.value.point == posA.Add(r.value.normal.Scale((dist + a.radius - b.radius) * 0.5))
            && r.value.bodyAIndex == bodyAIndex && r.value.bodyBIndex == bodyBIndex)
  {
    var posA := a.WorldCircle(bodyA).value;
    var posB := b.WorldCircle(bodyB).value;
    var positionDifference := posB.Sub(posA);
    var dist := Distance(posA, posB, sqrt);
    if dist < a.radius + b.radius then
      CircleContactGeometry(posA, posB, a.radius, b.radius, sqrt);
      var normal := positionDifference.DivScalar(dist);
      var surfaceA := posA.Add(normal.Scale(a.radius));
      var surfaceB := posB.Sub(normal.Scale(b.radius));
      var point := surfaceA.Add(surfaceB).Scale(0.5);
      Some(Contact(point, normal, a.radius + b.radius - dist, bodyAIndex, bodyBIndex))
    else
      None
  }

  /** The unit normal and the contact point of two circles with distinct centres. */
  lemma CircleContactGeometry(posA: Vec2, posB: Vec2, ra: real, rb: real, sqrt: real -> real)
    requires IsSqrt(sqrt) && posA != posB
    ensures var dist := Distance(posA, posB, sqrt);
      var normal := posB.Sub(posA).DivScalar(dist);
      && normal.LengthSquared() == 1.0
      && normal.Scale(dist) == posB.Sub(posA)
      && posA.Add(normal.Scale(ra)).Add(posB.Sub(normal.Scale(rb))).Scale(0.5)
         == posA.Add(normal.Scale((dist + ra - rb) * 0.5))
  {
    var dist := Distance(posA, posB, sqrt);
    DistanceSymmetric(posA, posB, sqrt);
    DividedByLength(posB.Sub(posA), sqrt);
    var normal := posB.Sub(posA).DivScalar(dist);
    SurfaceMidpoint(posA.x, posB.x, normal.x, dist, ra, rb);
    SurfaceMidpoint(posA.y, posB.y, normal.y, dist, ra, rb);
  }

  /** Two circles whose world centres differ, or that cannot overlap at all. */
  predicate CirclesDivisible(a: Collider, b: Collider, bodyA: Vec2, bodyB: Vec2)
    requires a.Circle? && b.Circle?
  {
    bodyA.Add(a.offset) != bodyB.Add(b.offset) || a.radius + b.radius <= 0.0
  }

  /** The opposite sides of the pair meet at the same point, from the other side. */
  lemma CircleCircleSwap(a: Collider, b: Collider, bodyA: Vec2, bodyB: Vec2, i: nat, j: nat, sqrt: real -> real)
    requires IsSqrt(sqrt) && a.Circle? && b.Circle? && CirclesDivisible(a, b, bodyA, bodyB)
    ensures CirclesDivisible(b, a, bodyB, bodyA)
    ensures var r := CircleCircle(a, b, bodyA, bodyB, i, j, sqrt);
      var s := CircleCircle(b, a, bodyB, bodyA, j, i, sqrt);
      && (r.Some? <==> s.Some?)
      && (r.Some? ==>
            && s.value.penDepth == r.value.penDepth
            && s.value.point == r.value.point
            && s.value.normal == r.value.normal.Neg()
            && s.value.bodyAIndex == j && s.value.bodyBIndex == i)
  {
    DistanceSymmetric(bodyA.Add(a.offset), bodyB.Add(b.offset), sqrt);
    if CircleCircle(a, b, bodyA, bodyB, i, j, sqrt).Some? {
      CircleCircleSwapNormal(a, b, bodyA, bodyB, i, j, sqrt);
      CircleCircleSwapPoint(a, b, bodyA, bodyB, i, j, sqrt);
    }
  }

  lemma CircleCircleSwapNormal(a: Collider, b: Collider, bodyA: Vec2, bodyB: Vec2, i: nat, j: nat, sqrt: real -> real)
    requires IsSqrt(sqrt) && a.Circle? && b.Circle? && CirclesDivisible(a, b, bodyA, bodyB)
    requires CircleCircle(a, b, bodyA, bodyB, i, j, sqrt).Some?
    ensures CirclesDivisible(b, a, bodyB, bodyA)
    ensures CircleCircle(b, a, bodyB, bodyA, j, i, sqrt).Some?
    ensures CircleCircle(b, a, bodyB, bodyA, j, i, sqrt).value.normal
         == CircleCircle(a, b, bodyA, bodyB, i, j, sqrt).value.normal.Neg()
  {
    var posA := bodyA.Add(a.offset);
    var posB := bodyB.Add(b.offset);
    DistanceSymmetric(posA, posB, sqrt);
    var dist := Distance(posA, posB, sqrt);
    var n := CircleCircle(a, b, bodyA, bodyB, i, j, sqrt).value.normal;
    var m := CircleCircle(b, a, bodyB, bodyA, j, i, sqrt).value.normal;
    OppositeVectors(posA, posB, n, m, dist);
  }

  lemma OppositeVectors(posA: Vec2, posB: Vec2, n: Vec2, m: Vec2, dist: real)
    requires 0.0 < dist && n.Scale(dist) == posB.Sub(posA) && m.Scale(dist) == posA.Sub(posB)
    ensures m == n.Neg()
  {
    OppositeDirections(posA.x, posB.x, n.x, m.x, dist);
    OppositeDirections(posA.y, posB.y, n.y, m.y, dist);
  }

  lemma CircleCircleSwapPoint(a: Collider, b: Collider, bodyA: Vec2, bodyB: Vec2, i: nat, j: nat, sqrt: real -> real)
    requires IsSqrt(sqrt) && a.Circle? && b.Circle? && CirclesDivisible(a, b, bodyA, bodyB)
    requires CirclesDivisible(b, a, bodyB, bodyA)
    requires CircleCircle(a, b, bodyA, bodyB, i, j, sqrt).Some?
    requires CircleCircle(b, a, bodyB, bodyA, j, i, sqrt).Some?
    requires CircleCircle(b, a, bodyB, bodyA, j, i, sqrt).value.normal
          == CircleCircle(a, b, bodyA, bodyB, i, j, sqrt).value.normal.Neg()
    ensures CircleCircle(b, a, bodyB, bodyA, j, i, sqrt).value.point
         == CircleCircle(a, b, bodyA, bodyB, i, j, sqrt).value.point
  {
    var posA := bodyA.Add(a.offset);
    var posB := bodyB.Add(b.offset);
    DistanceSymmetric(posA, posB, sqrt);
    var dist := Distance(posA, posB, sqrt);
    var n := CircleCircle(a, b, bodyA, bodyB, i, j, sqrt).value.normal;
    var m := CircleCircle(b, a, bodyB, bodyA, j, i, sqrt).value.normal;
    ContactPointFromOtherSide(posA, posB, n, m, dist, a.radius, b.radius);
  }

  lemma ContactPointFromOtherSide(posA: Vec2, posB: Vec2, n: Vec2, m: Vec2, dist: real, ra: real, rb: real)
    requires m == n.Neg() && n.Scale(dist) == posB.Sub(posA)
    ensures posB.Add(m.Scale((dist + rb - ra) * 0.5)) == posA.Add(n.Scale((dist + ra - rb) * 0.5))
  {
    PointFromOtherSide(posA.x, posB.x, n.x, m.x, dist, ra, rb);
    PointFromOtherSide(posA.y, posB.y, n.y, m.y, dist, ra, rb);
  }

  /** Two directions that scale by the same positive length to opposite vectors are opposite. */
  lemma OppositeDirections(a: real, b: real, n: real, m: real, d: real)
    requires 0.0 < d && n * d == b - a && m * d == a - b
    ensures m == -n
  {
    assert (m + n) * d == 0.0;
  }

  /** The contact point measured from the second centre along the reversed normal. */
  lemma PointFromOtherSide(a: real, b: real, n: real, m: real, d: real, ra: real, rb: real)
    requires m == -n && n * d == b - a
    ensures b + m * ((d + rb - ra) * 0.5) == a + n * ((d + ra - rb) * 0.5)
  {
  }

  /**
   * The circle-box normal: the direction from the circle's centre to the
   * nearest box point, or, when those two (nearly) coincide, the axis normal of
   * the nearest face; normalised in either case.
   */
  function CircleAabbNormal(center: Vec2, nearest: Vec2, worldMin: Vec2, worldMax: Vec2, sqrt: real -> real): (r: Vec2)
    requires IsSqrt(sqrt)
    ensures r.LengthSquared() == 1.0
    ensures IsCloseToZero(nearest.Sub(center)) ==> IsAxisUnit(r) && r == FaceNormal(center, worldMin, worldMax, nearest.Sub(center))
    ensures !IsCloseToZero(nearest.Sub(center)) ==> r.Scale(Distance(nearest, center, sqrt)) == nearest.Sub(center)
  {
    var collisionVector := nearest.Sub(center);
    if IsCloseToZero(collisionVector) then
      NormalizedFaceNormal(center, worldMin, worldMax, collisionVector, sqrt)
    else
      Normalize(collisionVector, sqrt)
  }

  /** The face normal, normalised, which leaves it as it is. */
  function NormalizedFaceNormal(center: Vec2, worldMin: Vec2, worldMax: Vec2, initial: Vec2, sqrt: real -> real): (r: Vec2)
    requires IsSqrt(sqrt)
    ensures r.LengthSquared() == 1.0 && IsAxisUnit(r)
    ensures r == FaceNormal(center, worldMin, worldMax, initial)
  {
    var face := FaceNormal(center, worldMin, worldMax, initial);
    NormalizeAxisUnit(face, sqrt);
    AxisUnitSquared(face);
    Normalize(face, sqrt)
  }

  /**
   * The circle-box test: a contact when the box point nearest to the circle's
   * centre lies closer than the radius. The contact sits at that box point and
   * its normal is `CircleAabbNormal`. Any other pair of shapes yields no
   * contact.
   */
  function TestCircleAabb(circle: Collider, aabb: Collider, circleBody: Vec2, aabbBody: Vec2,
                          circleIndex: nat, aabbIndex: nat, sqrt: real -> real): (r: Option<Contact>)
    requires IsSqrt(sqrt)
    ensures r.Some? ==> circle.Circle? && aabb.AABB?
    ensures circle.Circle? && aabb.AABB? ==>
      var center := circleBody.Add(circle.offset);
      var nearest := PointAabbNearestPoint(center, aabb, aabbBody);
      var dist := Distance(nearest, center, sqrt);
      && (r.Some? <==> dist < circle.radius)
      && (r.Some? ==>
            && r.value.point == nearest
            && r.value.penDepth == circle.radius - dist
            && 0.0 < r.value.penDepth
            && r.value.bodyAIndex == circleIndex && r.value.bodyBIndex == aabbIndex
            && r.value.normal.LengthSquared() == 1.0
            && r.value.normal == CircleAabbNormal(center, nearest, aabb.min.Add(aabbBody), aabb.max.Add(aabbBody), sqrt))
  {
    match (circle, aabb)
    case (Circle(_, radius), AABB(min, max)) =>
      var center := circle.WorldCircle(circleBody).value;
      var nearest := PointAabbNearestPoint(center, aabb, aabbBody);
      var dist := Distance(nearest, center, sqrt);
      var normal := CircleAabbNormal(center, nearest, min.Add(aabbBody), max.Add(aabbBody), sqrt);
      if dist < radius then
        Some(Contact(nearest, normal, radius - dist, circleIndex, aabbIndex))
      else
        None
    case _ => None
  }

  /**
   * A circle whose centre lies inside a box touches it at the centre itself,
   * at the full depth of its radius, along the axis normal of the nearest face.
   */
  lemma CircleCentreInsideBox(circle: Collider, aabb: Collider, circleBody: Vec2, aabbBody: Vec2,
                              i: nat, j: nat, sqrt: real -> real)
    requires IsSqrt(sqrt) && circle.Circle? && aabb.AABB? && 0.0 < circle.radius
    requires InBox(circleBody.Add(circle.offset), aabbBody.Add(aabb.min), aabbBody.Add(aabb.max))
    ensures var r := TestCircleAabb(circle, aabb, circleBody, aabbBody, i, j, sqrt);
      var center := circleBody.Add(circle.offset);
      && r.Some?
      && r.value.point == center
      && r.value.penDepth == circle.radius
      && r.value.normal == FaceNormal(center, aabb.min.Add(aabbBody), aabb.max.Add(aabbBody), Zero)
  {
    var center := circleBody.Add(circle.offset);
    assert PointAabbNearestPoint(center, aabb, aabbBody) == center;
    assert center.Sub(center) == Zero;
    assert IsCloseToZero(Zero);
  }

  /**
   * The box-circle test runs the circle-box test with the two indices in the
   * slots of the circle and the box, and reverses the normal, so that the
   * contact is reported with body A the box and the circle-box normal
   * reversed.
   */
  function TestAabbCircle(aabb: Collider, circle: Collider, aabbBody: Vec2, circleBody: Vec2,
                          aabbIndex: nat, circleIndex: nat, sqrt: real -> real): (r: Option<Contact>)
    requires IsSqrt(sqrt)
    ensures var c := TestCircleAabb(circle, aabb, circleBody, aabbBody, circleIndex, aabbIndex, sqrt);
      && (r.Some? <==> c.Some?)
      && (r.Some? ==>
            && r.value.point == c.value.point
            && r.value.penDepth == c.value.penDepth
            && r.value.normal == c.value.normal.Neg()
            && r.value.normal.LengthSquared() == 1.0
            && r.value.bodyAIndex == aabbIndex && r.value.bodyBIndex == circleIndex)
  {
    match TestCircleAabb(circle, aabb, circleBody, aabbBody, aabbIndex, circleIndex, sqrt)
    case None => None
    case Some(contact) =>
      ReversedByMinusOne(contact.normal);
      Some(contact.(normal := contact.normal.Scale(-1.0)))
  }

  /**
   * A box and a circle tested in either order report the same contact seen
   * from the other side: the same point and depth, the indices exchanged and
   * the normal reversed.
   */
  lemma MixedPairSwap(box: Collider, circle: Collider, bodyA: Vec2, bodyB: Vec2, i: nat, j: nat, sqrt: real -> real)
    requires IsSqrt(sqrt) && box.AABB? && circle.Circle?
    ensures var r := box.CollidesWith(bodyA, bodyB, circle, i, j, sqrt);
      var s := circle.CollidesWith(bodyB, bodyA, box, j, i, sqrt);
      && (r.Some? <==> s.Some?)
      && (r.Some? ==>
            && s.value.point == r.value.point
            && s.value.penDepth == r.value.penDepth
            && s.value.normal == r.value.normal.Neg()
            && s.value.bodyAIndex == j && s.value.bodyBIndex == i)
  {
    var r := box.CollidesWith(bodyA, bodyB, circle, i, j, sqrt);
    var s := circle.CollidesWith(bodyB, bodyA, box, j, i, sqrt);
    assert r == TestAabbCircle(box, circle, bodyA, bodyB, i, j, sqrt);
    assert s == TestCircleAabb(circle, box, bodyB, bodyA, j, i, sqrt);
    CircleAabbIndicesOnly(circle, box, bodyB, bodyA, i, j, sqrt);
    ReversedContacts(r, s, TestCircleAabb(circle, box, bodyB, bodyA, i, j, sqrt), i, j);
  }

  /** The bookkeeping step of `MixedPairSwap`, on the contacts alone. */
  lemma ReversedContacts(r: Option<Contact>, s: Option<Contact>, c: Option<Contact>, i: nat, j: nat)
    requires r.Some? <==> c.Some?
    requires r.Some? ==> && r.value.point == c.value.point && r.value.penDepth == c.value.penDepth
                         && r.value.normal == c.value.normal.Neg()
                         && r.value.bodyAIndex == i && r.value.bodyBIndex == j
    requires s == match c
                  case None => None
                  case Some(c) => Some(c.(bodyAIndex := j, bodyBIndex := i))
    ensures r.Some? <==> s.Some?
    ensures r.Some? ==> && s.value.point == r.value.point && s.value.penDepth == r.value.penDepth
                        && s.value.normal == r.value.normal.Neg()
                        && s.value.bodyAIndex == j && s.value.bodyBIndex == i
  {
  }

  /** The indices of the circle-box test only label the contact. */
  lemma CircleAabbIndicesOnly(circle: Collider, aabb: Collider, circleBody: Vec2, aabbBody: Vec2,
                              i: nat, j: nat, sqrt: real -> real)
    requires IsSqrt(sqrt)
    ensures TestCircleAabb(circle, aabb, circleBody, aabbBody, j, i, sqrt)
         == match TestCircleAabb(circle, aabb, circleBody, aabbBody, i, j, sqrt)
            case None => None
            case Some(c) => Some(c.(bodyAIndex := j, bodyBIndex := i))
  {
    if circle.Circle? && aabb.AABB? {
      var center := circleBody.Add(circle.offset);
      var nearest := PointAabbNearestPoint(center, aabb, aabbBody);
      var dist := Distance(nearest, center, sqrt);
      var normal := CircleAabbNormal(center, nearest, aabb.min.Add(aabbBody), aabb.max.Add(aabbBody), sqrt);
      if dist < circle.radius {
        assert TestCircleAabb(circle, aabb, circleBody, aabbBody, i, j, sqrt) == Some(Contact(nearest, normal, circle.radius - dist, i, j));
        assert TestCircleAabb(circle, aabb, circleBody, aabbBody, j, i, sqrt) == Some(Contact(nearest, normal, circle.radius - dist, j, i));
      } else {
        assert TestCircleAabb(circle, aabb, circleBody, aabbBody, i, j, sqrt).None?;
        assert TestCircleAabb(circle, aabb, circleBody, aabbBody, j, i, sqrt).None?;
      }
    }
  }

  /** For the box [0, 10] x [0, 10], the nearest point to a centre just above the top face is on that face. */
  lemma NearestPointAboveTop()
    ensures PointAabbNearestPoint(Vec2(5.0, 10.5), AABB(Zero, Vec2(10.0, 10.0)), Zero) == Vec2(5.0, 10.0)
  {
    assert Zero.Add(Zero) == Zero && Zero.Add(Vec2(10.0, 10.0)) == Vec2(10.0, 10.0);
  }

  /**
   * The circle-box normal changes sign as the centre crosses a face. A centre
   * just above the top face gives a normal pointing down, from the circle
   * toward the box.
   */
  lemma CircleAabbNormalAboveFace(sqrt: real -> real)
    requires IsSqrt(sqrt)
    ensures CircleAabbNormal(Vec2(5.0, 10.5), Vec2(5.0, 10.0), Zero, Vec2(10.0, 10.0), sqrt).y < 0.0
  {
    var v := Vec2(5.0, 10.0).Sub(Vec2(5.0, 10.5));
    assert v == Vec2(0.0, -0.5);
    var n := CircleAabbNormal(Vec2(5.0, 10.5), Vec2(5.0, 10.0), Zero, Vec2(10.0, 10.0), sqrt);
    var d := Distance(Vec2(5.0, 10.0), Vec2(5.0, 10.5), sqrt);
    NegativeFactor(n.y, d);
  }

  /**
   * A centre just below the top face, inside the box, is its own nearest
   * point, and the face normal there is +Y.
   */
  lemma NearestFaceBelowTop()
    ensures PointAabbNearestPoint(Vec2(5.0, 9.5), AABB(Zero, Vec2(10.0, 10.0)), Zero) == Vec2(5.0, 9.5)
    ensures FaceNormal(Vec2(5.0, 9.5), Zero, Vec2(10.0, 10.0), Zero) == UnitY
  {
    assert InBox(Vec2(5.0, 9.5), Zero.Add(Zero), Zero.Add(Vec2(10.0, 10.0)));
    assert Abs(9.5 - 10.0) == 0.5;
  }

  /**
   * The normal for that centre is the face normal +Y, which points out of
   * the box, from the box toward the circle.
   */
  lemma CircleAabbNormalBelowFace(sqrt: real -> real)
    requires IsSqrt(sqrt)
    ensures CircleAabbNormal(Vec2(5.0, 9.5), Vec2(5.0, 9.5), Zero, Vec2(10.0, 10.0), sqrt) == UnitY
  {
    var c := Vec2(5.0, 9.5);
    assert c.Sub(c) == Zero;
    NearestFaceBelowTop();
  }
}
