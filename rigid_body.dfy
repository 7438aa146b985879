/**
 * Rigid bodies: a fluent builder that derives the mass properties of a body
 * from its shape, and the body itself, whose methods accumulate forces, apply
 * impulses and advance the body by one semi-implicit Euler step.
 *
 * The body's state as a value is `BodyState`; the functions on it specify the
 * methods of the class `RigidBody2D`, which holds the same fields as variables.
 */
module RigidBodies {
  import opened Wrappers
  import opened Vectors
  import opened Colliders

  /** The state a body is built from; every field but the accumulators has a setter. */
  datatype BodyBuilder = BodyBuilder(
    position: Vec2,
    angle: real,
    angularVel: real,
    vel: Vec2,
    accumForce: Vec2,
    accumTorque: real,
    inverseMass: real,
    inverseInertia: real,
    isStatic: bool,
    shape: Option<Collider>,
    restitution: real,
    mu: real)
  {
    function WithPosition(position: Vec2): (r: BodyBuilder)
      ensures r.position == position && r.(position := this.position) == this
    {
      this.(position := position)
    }

    function WithAngle(angle: real): (r: BodyBuilder)
      ensures r.angle == angle && r.(angle := this.angle) == this
    {
      this.(angle := angle)
    }

    function WithShape(shape: Collider): (r: BodyBuilder)
      ensures r.shape == Some(shape) && r.(shape := this.shape) == this
    {
      this.(shape := Some(shape))
    }

    function WithInverseMass(invMass: real): (r: BodyBuilder)
      ensures r.inverseMass == invMass && r.(inverseMass := this.inverseMass) == this
    {
      this.(inverseMass := invMass)
    }

    function WithAngularVel(angVel: real): (r: BodyBuilder)
      ensures r.angularVel == angVel && r.(angularVel := this.angularVel) == this
    {
      this.(angularVel := angVel)
    }

    function WithVel(vel: Vec2): (r: BodyBuilder)
      ensures r.vel == vel && r.(vel := this.vel) == this
    {
      this.(vel := vel)
    }

    function MakeStatic(): (r: BodyBuilder)
      ensures r.isStatic && r.(isStatic := this.isStatic) == this
    {
      this.(isStatic := true)
    }

    function WithRestitution(restitution: real): (r: BodyBuilder)
      ensures r.restitution == restitution && r.(restitution := this.restitution) == this
    {
      this.(restitution := restitution)
    }

    function WithMu(mu: real): (r: BodyBuilder)
      ensures r.mu == mu && r.(mu := this.mu) == this
    {
      this.(mu := mu)
    }

    /**
     * The built body. A static body gets zero inverse mass and inertia; a
     * dynamic body with a shape gets the inertia of that shape (stored, as in
     * the source, in the field named `inverseInertia`), which divides by the
     * inverse mass, so a dynamic body with a shape must have a nonzero one.
     */
    function Build(): (r: BodyState)
      requires !isStatic && shape.Some? ==> inverseMass != 0.0
      ensures r.position == position && r.angle == angle && r.angularVel == angularVel && r.vel == vel
      ensures r.accumForce == accumForce && r.accumTorque == accumTorque
      ensures r.isStatic == isStatic && r.restitution == restitution && r.mu == mu
      ensures isStatic ==> r.inverseMass == 0.0 && r.inverseInertia == 0.0
      ensures !isStatic ==> r.inverseMass == inverseMass
      ensures !isStatic && shape.None? ==> r.inverseInertia == inverseInertia
      ensures !isStatic && shape.Some? && shape.value.AABB? ==>
        r.inverseInertia == RectangleInertia(1.0 / inverseMass, shape.value.min, shape.value.max)
      ensures !isStatic && shape.Some? && shape.value.Circle? ==>
        r.inverseInertia == DiscInertia(1.0 / inverseMass, shape.value.radius)
    {
      var rb := BodyState(position, angle, angularVel, vel, accumForce, accumTorque,
                          inverseMass, inverseInertia, isStatic, restitution, mu);
      if rb.isStatic then
        rb.(inverseMass := 0.0, inverseInertia := 0.0)
      else
        match shape
        case None => rb
        case Some(AABB(min, max)) =>
          var h := Abs(max.y - min.y);
          var w := Abs(max.x - min.x);
          var m := 1.0 / inverseMass;
          rb.(inverseInertia := (1.0 / 12.0) * m * (w * w + h * h))
        case Some(Circle(_, radius)) =>
          var m := 1.0 / inverseMass;
          rb.(inverseInertia := 0.5 * m * radius * radius)
    }
  }

  /** A fresh builder: a dynamic body at rest at the origin, with no shape. */
  function NewBuilder(): (r: BodyBuilder)
    ensures r.position == Zero && r.angle == 0.0 && r.angularVel == 0.0 && r.vel == Zero
    ensures r.accumForce == Zero && r.accumTorque == 0.0
    ensures r.inverseMass == 1.0 && r.inverseInertia == 1.0
    ensures !r.isStatic && r.shape.None? && r.restitution == 0.5 && r.mu == 0.3
  {
    BodyBuilder(Zero, 0.0, 0.0, Zero, Zero, 0.0, 1.0, 1.0, false, None, 0.5, 0.3)
  }

  /**
   * The moment of inertia of a solid rectangle of mass `m` about its centre,
   * m (w^2 + h^2) / 12, for the box with corners `min` and `max`.
   */
  function RectangleInertia(m: real, min: Vec2, max: Vec2): (r: real)
    ensures 0.0 <= m ==> 0.0 <= r
    ensures min == max || m == 0.0 ==> r == 0.0
  {
    var w := Abs(max.x - min.x);
    var h := Abs(max.y - min.y);
    ScaledSquaresNonNegative(1.0 / 12.0, m, w, h);
    (1.0 / 12.0) * m * (w * w + h * h)
  }

  /** The moment of inertia of a solid disc of mass `m` about its centre, m r^2 / 2. */
  function DiscInertia(m: real, radius: real): (r: real)
    ensures 0.0 <= m ==> 0.0 <= r
    ensures radius == 0.0 || m == 0.0 ==> r == 0.0
  {
    ScaledSquareNonNegative(0.5, m, radius);
    0.5 * m * radius * radius
  }

  lemma ScaledSquaresNonNegative(k: real, m: real, a: real, b: real)
    ensures 0.0 <= k && 0.0 <= m ==> 0.0 <= k * m * (a * a + b * b)
  {
    if 0.0 <= k && 0.0 <= m {
      SumOfSquaresNonNegative(a, b);
      assert 0.0 <= k * m;
      ProductMonotone(k * m, 0.0, a * a + b * b);
    }
  }

  lemma ScaledSquareNonNegative(k: real, m: real, r: real)
    ensures 0.0 <= k && 0.0 <= m ==> 0.0 <= k * m * r * r
  {
    if 0.0 <= k && 0.0 <= m {
      assert 0.0 <= r * r;
      assert 0.0 <= k * m;
      ProductMonotone(k * m, 0.0, r * r);
      assert k * m * r * r == (k * m) * (r * r);
    }
  }

  /** The rectangle inertia depends on the extent of the box only, not on the order of its corners. */
  lemma RectangleInertiaOfSwappedCorners(m: real, min: Vec2, max: Vec2)
    ensures RectangleInertia(m, max, min) == RectangleInertia(m, min, max)
    ensures RectangleInertia(m, Vec2(min.x, max.y), Vec2(max.x, min.y)) == RectangleInertia(m, min, max)
  {
    assert Abs(min.x - max.x) == Abs(max.x - min.x);
    assert Abs(min.y - max.y) == Abs(max.y - min.y);
  }

  /** The state of a body as a value: the fields of `RigidBody2D`. */
  datatype BodyState = BodyState(
    position: Vec2,
    angle: real,
    angularVel: real,
    vel: Vec2,
    accumForce: Vec2,
    accumTorque: real,
    inverseMass: real,
    inverseInertia: real,
    isStatic: bool,
    restitution: real,
    mu: real)
  {
    /** A body that the integrator leaves alone: infinite mass or marked static. */
    predicate Immovable() {
      inverseMass == 0.0 || isStatic
    }

    /** The state after `apply_force`: the force joins the accumulated force. */
    function WithForce(force: Vec2): (r: BodyState)
      ensures r.accumForce.Sub(accumForce) == force
      ensures r.(accumForce := accumForce) == this
    {
      this.(accumForce := accumForce.Add(force))
    }

    /** The state after `apply_impulse`: the velocity changes by the impulse times the inverse mass. */
    function WithImpulse(impulse: Vec2): (r: BodyState)
      ensures r.vel.Sub(vel) == impulse.Scale(inverseMass)
      ensures r.(vel := vel) == this
    {
      this.(vel := vel.Add(impulse.Scale(inverseMass)))
    }

    /**
     * The state after `update(dt)`. An immovable body is left exactly as it is,
     * accumulators included. Otherwise the velocities change by the accumulated
     * force and torque, the position and angle advance by the new velocities,
     * and both accumulators are cleared.
     */
    function Integrated(dt: real): (r: BodyState)
      ensures Immovable() ==> r == this
      ensures !Immovable() ==>
        && r.vel.Sub(vel) == accumForce.Scale(dt * inverseMass)
        && r.position.Sub(position) == r.vel.Scale(dt)
        && r.angularVel - angularVel == dt * inverseInertia * accumTorque
        && r.angle - angle == r.angularVel * dt
        && r.accumForce == Zero && r.accumTorque == 0.0
        && r.(position := position, angle := angle, angularVel := angularVel, vel := vel,
              accumForce := accumForce, accumTorque := accumTorque) == this
    {
      if inverseMass == 0.0 || isStatic then
        this
      else
        var newVel := vel.Add(accumForce.Scale(dt * inverseMass));
        var newPos := position.Add(newVel.Scale(dt));
        var newAngVel := angularVel + dt * inverseInertia * accumTorque;
        var newAngle := angle + newAngVel * dt;
        this.(position := newPos, angle := newAngle, angularVel := newAngVel, vel := newVel,
              accumForce := Zero, accumTorque := 0.0)
    }

    /** The state after `apply_force` with each of `forces` in turn. */
    function WithForces(forces: seq<Vec2>): BodyState
      decreases |forces|
    {
      if |forces| == 0 then this else WithForce(forces[0]).WithForces(forces[1..])
    }
  }

  /** The sum of a sequence of forces. */
  function SumOf(forces: seq<Vec2>): Vec2
    decreases |forces|
  {
    if |forces| == 0 then Zero else forces[0].Add(SumOf(forces[1..]))
  }

  /** Forces accumulate: applying a force after another is applying their sum. */
  lemma ForcesAdd(s: BodyState, f: Vec2, g: Vec2)
    ensures s.WithForce(f).WithForce(g) == s.WithForce(f.Add(g))
  {
  }

  /** Applying forces one after another is applying their sum once. */
  lemma {:induction false} ForcesAccumulate(s: BodyState, forces: seq<Vec2>)
    ensures s.WithForces(forces) == s.WithForce(SumOf(forces))
    decreases |forces|
  {
    if |forces| == 0 {
      assert s.WithForce(Zero) == s;
    } else {
      ForcesAccumulate(s.WithForce(forces[0]), forces[1..]);
      ForcesAdd(s, forces[0], SumOf(forces[1..]));
    }
  }

  /** An impulse on a body of zero inverse mass changes nothing. */
  lemma ImpulseOnInfiniteMass(s: BodyState, impulse: Vec2)
    requires s.inverseMass == 0.0
    ensures s.WithImpulse(impulse) == s
  {
    assert impulse.Scale(0.0) == Zero;
  }

  /** Two impulses in a row act as their sum. */
  lemma ImpulsesAdd(s: BodyState, i: Vec2, j: Vec2)
    ensures s.WithImpulse(i).WithImpulse(j) == s.WithImpulse(i.Add(j))
  {
    assert i.Scale(s.inverseMass).Add(j.Scale(s.inverseMass)) == i.Add(j).Scale(s.inverseMass);
  }

  /**
   * Without new forces, a second step keeps the velocity the first step
   * produced and moves the body on by that velocity.
   */
  lemma SecondStepCoasts(s: BodyState, dt: real)
    requires !s.Immovable()
    ensures var t := s.Integrated(dt);
      && t.Integrated(dt).vel == t.vel
      && t.Integrated(dt).angularVel == t.angularVel
      && t.Integrated(dt).position == t.position.Add(t.vel.Scale(dt))
  {
    var t := s.Integrated(dt);
    assert t.accumForce == Zero && t.accumTorque == 0.0;
    assert Zero.Scale(dt * t.inverseMass) == Zero;
    assert dt * t.inverseInertia * 0.0 == 0.0;
  }

  /** The integrator never changes the mass properties, the flags or the material. */
  lemma IntegrationKeepsMaterial(s: BodyState, dt: real)
    ensures var r := s.Integrated(dt);
      && r.inverseMass == s.inverseMass && r.inverseInertia == s.inverseInertia
      && r.isStatic == s.isStatic && r.restitution == s.restitution && r.mu == s.mu
  {
  }

  /** A body built static stays put: every step leaves it unchanged, and impulses do not move it. */
  lemma StaticBodyNeverMoves(b: BodyBuilder, dt: real, impulse: Vec2, f: Vec2)
    requires b.isStatic
    ensures b.Build().Integrated(dt) == b.Build()
    ensures b.Build().WithImpulse(impulse) == b.Build()
    ensures var r := b.Build().WithForce(f).Integrated(dt);
      r.position == b.Build().position && r.vel == b.Build().vel
  {
    ImpulseOnInfiniteMass(b.Build(), impulse);
  }

  /**
   * A fresh builder builds a dynamic body at rest at the origin with unit
   * inverse mass and inertia, restitution 0.5 and friction 0.3.
   */
  lemma DefaultBody()
    ensures var r := NewBuilder().Build();
      && r.position == Zero && r.angle == 0.0 && r.vel == Zero && r.angularVel == 0.0
      && r.accumForce == Zero && r.accumTorque == 0.0
      && r.inverseMass == 1.0 && r.inverseInertia == 1.0
      && !r.isStatic && r.restitution == 0.5 && r.mu == 0.3
  {
  }

  /** `make_static` wins over any inverse mass and any shape, in whichever order they are given. */
  lemma StaticWinsOverMassAndShape(b: BodyBuilder, invMass: real, shape: Collider)
    ensures var r := b.MakeStatic().WithInverseMass(invMass).WithShape(shape).Build();
      r.inverseMass == 0.0 && r.inverseInertia == 0.0
    ensures var r := b.WithInverseMass(invMass).WithShape(shape).MakeStatic().Build();
      r.inverseMass == 0.0 && r.inverseInertia == 0.0
  {
  }

  /** A later call of the same setter overrides an earlier one. */
  lemma SettersLastWins(b: BodyBuilder, p: Vec2, q: Vec2, a: real, c: real, s: Collider, t: Collider)
    ensures b.WithPosition(p).WithPosition(q) == b.WithPosition(q)
    ensures b.WithVel(p).WithVel(q) == b.WithVel(q)
    ensures b.WithAngle(a).WithAngle(c) == b.WithAngle(c)
    ensures b.WithAngularVel(a).WithAngularVel(c) == b.WithAngularVel(c)
    ensures b.WithInverseMass(a).WithInverseMass(c) == b.WithInverseMass(c)
    ensures b.WithRestitution(a).WithRestitution(c) == b.WithRestitution(c)
    ensures b.WithMu(a).WithMu(c) == b.WithMu(c)
    ensures b.WithShape(s).WithShape(t) == b.WithShape(t)
    ensures b.MakeStatic().MakeStatic() == b.MakeStatic()
  {
  }

  /** A rigid body whose fields the methods below update in place. */
  class RigidBody2D {
    var position: Vec2
    var angle: real
    var angularVel: real
    var vel: Vec2
    var accumForce: Vec2
    var accumTorque: real
    var inverseMass: real
    var inverseInertia: real
    var isStatic: bool
    var restitution: real
    var mu: real

    /** The body's fields as a value. */
    function State(): BodyState
      reads this
    {
      BodyState(position, angle, angularVel, vel, accumForce, accumTorque,
                inverseMass, inverseInertia, isStatic, restitution, mu)
    }

    /** A body holding the state `s`, as `build` returns it. */
    constructor (s: BodyState)
      ensures State() == s
    {
      position := s.position;
      angle := s.angle;
      angularVel := s.angularVel;
      vel := s.vel;
      accumForce := s.accumForce;
      accumTorque := s.accumTorque;
      inverseMass := s.inverseMass;
      inverseInertia := s.inverseInertia;
      isStatic := s.isStatic;
      restitution := s.restitution;
      mu := s.mu;
    }

    method ApplyForce(force: Vec2)
      modifies this
      ensures State() == old(State()).WithForce(force)
    {
      accumForce := accumForce.Add(force);
    }

    method ApplyImpulse(impulse: Vec2)
      modifies this
      ensures State() == old(State()).WithImpulse(impulse)
    {
      vel := vel.Add(impulse.Scale(inverseMass));
    }

    /** One semi-implicit Euler step of length `dt`. */
    method Update(dt: real)
      modifies this
      ensures State() == old(State()).Integrated(dt)
    {
      if inverseMass == 0.0 || isStatic {
        return;
      }
      var newVel := vel.Add(accumForce.Scale(dt * inverseMass));
      var newPos := position.Add(newVel.Scale(dt));
      var newAngVel := angularVel + dt * inverseInertia * accumTorque;
      var newAngle := angle + newAngVel * dt;
      position := newPos;
      angle := newAngle;
      angularVel := newAngVel;
      vel := newVel;
      accumForce := Zero;
      accumTorque := 0.0;
    }
  }
}
