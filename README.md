# physixx core in Dafny

A model of the core of physixx, a small 2-D rigid-body physics sandbox, and
proofs about it. The model covers four parts:

- **Narrow-phase contacts** (`collider.dfy`, module `Colliders`). A collider
  is a circle or an axis-aligned box, placed in the world by the position of
  its body. `Collider.CollidesWith` dispatches over the four shape pairs. It
  returns at most one `Contact`, which holds a point, a normal, a penetration
  depth and the two body indices.
- **Rigid bodies** (`rigid_body.dfy`, module `RigidBodies`).
  - A fluent `BodyBuilder` whose `Build` zeroes the inverse mass and inertia of
    static bodies and derives the inertia of dynamic ones from their shape.
  - The class `RigidBody2D`, whose methods accumulate forces, apply impulses
    and take one semi-implicit Euler step.
- **Camera** (`camera.dfy`, module `Cameras`). The class `Camera` holds the
  affine world-to-screen map, its inverse, and zooming in and out.
- **Object builder** (`object.dfy`, module `Objects`). A builder that requires
  a colour and gives unnamed objects the default name.

`vectors.dfy` (module `Vectors`) models the graphics library's `Vec2` and
scalar helpers over the reals. `wrappers.dfy` holds `Option` and `Result`.

Every `f32` is a `real` and every `usize` is a `nat`. The square root inside
`distance` and `normalize` is a parameter `sqrt`. The model knows it only
through `IsSqrt`: on non-negative numbers it is non-negative and squares back
to its argument.

Points where the model follows the code, and where a reader might expect
something different:

- The builder stores the inertia itself in the field named `inverse_inertia`,
  not its inverse (`RectangleInertia`, `DiscInertia`).
- The box-box test compares with `>=`. Boxes that only touch therefore yield a
  contact of depth zero (`BoxBoxTouching`).
- The `depth < 0` guard of the box-box test:
  - it is dead for boxes whose corners are in order (`OverlapsOfCollidingBoxes`);
  - a box with swapped corners reaches it (`BoxBoxDepthGuardReachable`).
- The normals do not follow one convention across the shape pairs:
  - circle-circle: from A's centre toward B's (`CircleCircle`);
  - box-box along Y: -Y when the bottom penetration is the smaller, which
    points from A toward B (`BoxBoxNormalAlongYPointsTowardB`);
  - box-box along X: -X when the left penetration is the smaller, which
    points from B toward A (`BoxBoxNormalAlongXPointsTowardA`);
  - circle-box: `normalize(nearest - centre)`, from the circle toward the box
    (`CircleAabbNormalAboveFace`). When the two points (nearly) coincide it is
    the nearest face's normal instead, which points out of the box, from the
    box toward the circle (`CircleAabbNormalBelowFace`);
  - box-circle: the circle-box normal reversed (`TestAabbCircle`).
- When the centre lies (nearly) on the box, the face normal is chosen by four
  `if`s in sequence, and the last one that matches wins. On ties, top beats
  bottom, bottom beats right, and right beats left (`FaceNormal`).
- The box-circle test passes the box's index in the circle's slot. The contact
  therefore names the box as body A (`TestAabbCircle`).

## Model

| member | source | states |
|---|---|---|
| Colliders.Collider.WorldAabb | src/collider.rs:143-148 | a box has world corners, offset from the body position by its local corners; a circle has none |
| Colliders.Collider.WorldCircle | src/collider.rs:150-155 | a circle has a world centre, offset from the body position by its local offset; a box has none |
| Colliders.IsCloseToZero | src/collider.rs:47-49 | a vector is close to zero exactly when both components lie in [-2^-23, 2^-23]; a vector that is not close is nonzero |
| Colliders.NearestCoord | src/collider.rs:18-28 | for an ordered interval, the chosen coordinate is the clamp of the point into the interval; it lies in the interval; a point inside is kept |
| Colliders.NearestCoordIsNearest | src/collider.rs:18-40 | no point of the interval is nearer to the point than the chosen coordinate |
| Colliders.NearestCoordFallbackUnreachable | src/collider.rs:24-27 | the fourth and fifth branches of each axis are never taken |
| Colliders.PointAabbNearestPoint | src/collider.rs:12-46 | each coordinate is clamped into the world box; the result lies in an ordered box; a point inside the box is returned unchanged |
| Colliders.FaceNormal | src/collider.rs:97-120 | the normal is an axis unit vector; it is +Y, -Y, +X or -X exactly when that face is nearest, with ties broken top, then bottom, then right, then left |
| Colliders.SeparatingNormal | src/collider.rs:247-268 | an axis unit vector along Y iff the x-overlap exceeds the y-overlap; -Y iff the bottom penetration is the smaller; -X iff the left penetration is the smaller |
| Colliders.SeparatingNormalSwap | src/collider.rs:247-268 | exchanging the penetrations reverses the normal unless the two penetrations on its axis are equal |
| Colliders.BoxBox | src/collider.rs:214-279 | separated boxes give no contact; a contact's depth is the smaller overlap and non-negative; its indices are those passed; its normal is an axis unit vector |
| Colliders.BoxBoxExactForOrderedBoxes | src/collider.rs:224-245 | for ordered boxes, a contact is reported exactly when the boxes are not separated |
| Colliders.OverlapsOfCollidingBoxes | src/collider.rs:234-245 | for ordered boxes that pass the interval test, both overlaps are non-negative, so the `depth < 0` return is not taken |
| Colliders.BoxBoxDepthGuardReachable | src/collider.rs:241-245 | a box with its x-corners swapped passes the interval test and still yields no contact |
| Colliders.BoxBoxNormal | src/collider.rs:247-268 | the contact normal lies along Y iff x-overlap > y-overlap, is -Y iff bottom < top penetration, and is -X iff left < right penetration |
| Colliders.BoxBoxUnitNormal | src/collider.rs:247-268 | a box-box contact normal has unit length |
| Colliders.BoxBoxNormalAlongYPointsTowardB | src/collider.rs:248-257 | for A = [0,10]x[2,4] above B = [0,10]x[0,3] the normal is -Y, pointing from A toward B |
| Colliders.BoxBoxNormalAlongXPointsTowardA | src/collider.rs:258-267 | for A = [0,2]x[0,10] left of B = [1,3]x[0,10] the normal is -X, pointing from B toward A |
| Colliders.BoxBoxPoint | src/collider.rs:229-232 | the contact point is the centre of the overlap rectangle |
| Colliders.BoxBoxTouching | src/collider.rs:224-227 | ordered boxes that share an edge or a corner yield a contact of depth zero |
| Colliders.BoxBoxSwap | src/collider.rs:229-268 | testing B against A gives the same existence, depth and point, swapped indices, and the normal reversed except on equal penetrations |
| Colliders.CircleCircle | src/collider.rs:167-200 | a contact exists iff the centre distance is below the sum of the radii; then the depth is that sum minus the distance (positive); the normal has unit length and, scaled by the distance, is the vector from A's centre to B's; the point lies on that line, midway between the two surfaces |
| Colliders.CircleContactGeometry | src/collider.rs:183-188 | the normal (pos_b - pos_a)/dist has unit length, and the average of the two surface points lies at pos_a + normal·(dist + r_a - r_b)/2 |
| Colliders.CircleCircleSwap | src/collider.rs:175-199 | testing B against A gives the same existence, depth and point, swapped indices and the reversed normal |
| Colliders.CircleAabbNormal | src/collider.rs:96-122 | the normal has unit length; in the near-zero case it is the face normal; otherwise, scaled by the distance, it is the vector from the centre to the nearest box point |
| Colliders.NearestPointAboveTop | src/collider.rs:12-46 | for the box [0,10]x[0,10] the nearest point to (5, 10.5) is (5, 10) |
| Colliders.CircleAabbNormalAboveFace | src/collider.rs:96-122 | for a centre just above the top face of [0,10]x[0,10] the normal points down, from the circle toward the box |
| Colliders.NearestFaceBelowTop | src/collider.rs:97-120 | the point (5, 9.5) inside [0,10]x[0,10] is its own nearest point, and its nearest face is the top one, with normal +Y |
| Colliders.CircleAabbNormalBelowFace | src/collider.rs:96-122 | for that centre the normal is +Y, pointing out of the box, from the box toward the circle |
| Colliders.TestCircleAabb | src/collider.rs:74-139 | only a circle and a box can meet; a contact exists iff the distance from the centre to the nearest box point is below the radius; then the point is that box point, the depth is radius minus distance (positive), the indices are the circle's and the box's, and the normal is the unit circle-box normal |
| Colliders.CircleCentreInsideBox | src/collider.rs:87-132 | a circle of positive radius whose centre lies in the box touches it at the centre, at depth equal to the radius, along the nearest face's normal |
| Colliders.TestAabbCircle | src/collider.rs:51-72 | the same existence, point and depth as the circle-box test, the box's index first, and the reversed normal of unit length |
| Colliders.Collider.CollidesWith | src/collider.rs:157-281 | in every shape pair a contact carries the indices as passed, a non-negative depth and a unit normal; separated boxes give none |
| Colliders.MixedPairSwap | src/collider.rs:206-212 | a box and a circle tested in either order give the same existence, point and depth, swapped indices and reversed normals |
| Vectors.Distance | src/collider.rs:90 | the distance is non-negative, squares to the squared length of the difference, and is zero exactly for equal points |
| Vectors.DistanceSymmetric | src/collider.rs:180 | the distance from a to b equals the distance from b to a |
| Vectors.Normalize | src/collider.rs:122 | the normalised vector has unit length and, scaled by the original length, gives back the vector |
| Vectors.NormalizeAxisUnit | src/collider.rs:108-122 | normalising an axis unit vector leaves it unchanged |
| RigidBodies.BodyBuilder.WithPosition | src/rigid_body.rs:38-41 | sets the position and leaves every other field as it was |
| RigidBodies.BodyBuilder.WithAngle | src/rigid_body.rs:43-46 | sets the angle and leaves every other field as it was |
| RigidBodies.BodyBuilder.WithShape | src/rigid_body.rs:48-51 | sets the shape and leaves every other field as it was |
| RigidBodies.BodyBuilder.WithInverseMass | src/rigid_body.rs:53-56 | sets the inverse mass and leaves every other field as it was |
| RigidBodies.BodyBuilder.WithAngularVel | src/rigid_body.rs:58-61 | sets the angular velocity and leaves every other field as it was |
| RigidBodies.BodyBuilder.WithVel | src/rigid_body.rs:63-66 | sets the velocity and leaves every other field as it was |
| RigidBodies.BodyBuilder.MakeStatic | src/rigid_body.rs:68-71 | marks the body static and leaves every other field as it was |
| RigidBodies.BodyBuilder.WithRestitution | src/rigid_body.rs:73-76 | sets the restitution and leaves every other field as it was |
| RigidBodies.BodyBuilder.WithMu | src/rigid_body.rs:78-81 | sets the friction coefficient and leaves every other field as it was |
| RigidBodies.SettersLastWins | src/rigid_body.rs:38-81 | a later call of the same setter overrides an earlier one |
| RigidBodies.BodyBuilder.Build | src/rigid_body.rs:83-121 | the kinematic and material fields are copied; a static body gets zero inverse mass and inertia; a dynamic one keeps its inverse mass, and its inertia is the given one without a shape, the rectangle inertia for a box, and the disc inertia for a circle |
| RigidBodies.NewBuilder | src/rigid_body.rs:21-36 | a fresh builder is at the origin at rest, with zero accumulated force and torque, unit inverse mass and inertia, not static, no shape, restitution 0.5 and friction 0.3 |
| RigidBodies.RectangleInertia | src/rigid_body.rs:107-111 | the rectangle inertia is non-negative for a non-negative mass, and zero for a zero mass or a box of no extent |
| RigidBodies.DiscInertia | src/rigid_body.rs:113-115 | the disc inertia is non-negative for a non-negative mass, and zero for a zero mass or a zero radius |
| RigidBodies.DefaultBody | src/rigid_body.rs:21-36 | a fresh builder builds a dynamic body at rest at the origin with unit inverse mass and inertia, restitution 0.5 and friction 0.3 |
| RigidBodies.StaticWinsOverMassAndShape | src/rigid_body.rs:99-103 | `make_static` yields zero inverse mass and inertia whatever inverse mass or shape is given, before or after it |
| RigidBodies.RectangleInertiaOfSwappedCorners | src/rigid_body.rs:108-109 | the rectangle inertia depends only on the box's extent, not on the order of its corners |
| RigidBodies.BodyState.WithForce | src/rigid_body.rs:142-144 | the accumulated force grows by the force and nothing else changes |
| RigidBodies.BodyState.WithImpulse | src/rigid_body.rs:146-148 | the velocity changes by the impulse times the inverse mass and nothing else changes |
| RigidBodies.BodyState.Integrated | src/rigid_body.rs:151-175 | an immovable body is unchanged, accumulators included; otherwise the velocity changes by the force times dt times the inverse mass, the position advances by the new velocity times dt, the angular state advances in the same way, both accumulators are cleared, and nothing else changes |
| RigidBodies.ForcesAdd | src/rigid_body.rs:142-144 | two forces in a row act as their sum |
| RigidBodies.ForcesAccumulate | src/rigid_body.rs:142-144 | any sequence of applied forces acts as their sum applied once |
| RigidBodies.ImpulseOnInfiniteMass | src/rigid_body.rs:146-148 | an impulse on a body of zero inverse mass changes nothing |
| RigidBodies.ImpulsesAdd | src/rigid_body.rs:146-148 | two impulses in a row act as their sum |
| RigidBodies.SecondStepCoasts | src/rigid_body.rs:151-175 | after a step of a movable body, a second step with no new force keeps both velocities and moves the body on by its velocity |
| RigidBodies.IntegrationKeepsMaterial | src/rigid_body.rs:151-175 | a step never changes the inverse mass, the inertia, the static flag, the restitution or the friction |
| RigidBodies.StaticBodyNeverMoves | src/rigid_body.rs:99-103 | a body built static is unchanged by every step and by every impulse, and a step after any applied force leaves its position and velocity as they were |
| RigidBodies.RigidBody2D.constructor | src/rigid_body.rs:85-97 | the new body holds exactly the given state |
| RigidBodies.RigidBody2D.ApplyForce | src/rigid_body.rs:142-144 | the new state is the old state with the force added to the accumulated force |
| RigidBodies.RigidBody2D.ApplyImpulse | src/rigid_body.rs:146-148 | the new state is the old state with the impulse applied |
| RigidBodies.RigidBody2D.Update | src/rigid_body.rs:151-175 | the new state is the old state advanced by one step of length dt |
| Cameras.Camera.constructor | src/camera.rs:3-9 | the new camera holds the given screen size, look-at point, zoom and zoom factor |
| Cameras.Camera.ZoomIn | src/camera.rs:12-15 | both zoom components are multiplied by the zoom factor, and no other field changes |
| Cameras.Camera.ZoomOut | src/camera.rs:17-20 | both zoom components are divided by the nonzero zoom factor, and no other field changes |
| Cameras.ZoomInOutInverse | src/camera.rs:12-20 | zooming in then out, or out then in, restores the zoom |
| Cameras.Camera.ScreenMiddle | src/camera.rs:22-27 | twice the middle is the screen size |
| Cameras.Camera.WorldToScreen | src/camera.rs:29-41 | the look-at point maps to the middle of the screen |
| Cameras.ScreenToWorldOfWorldToScreen | src/camera.rs:29-54 | when both zoom components are nonzero, mapping a world point to the screen and back gives the point |
| Cameras.Camera.ScreenToWorld | src/camera.rs:44-54 | the result's offset from the look-at point, times the zoom, is the screen point's offset from the middle; the middle maps to the look-at point |
| Cameras.WorldToScreenOfScreenToWorld | src/camera.rs:29-54 | mapping a screen point to the world and back gives the point |
| Cameras.WorldToScreenDisplacement | src/camera.rs:38-40 | screen displacements are world displacements times the zoom, componentwise |
| Objects.NewObjectBuilder | src/object.rs:61-68 | a fresh builder has no body, collider, colour or name |
| Objects.ObjectBuilder.WithBody | src/object.rs:70-73 | sets the body and leaves the other fields as they were |
| Objects.ObjectBuilder.WithCollider | src/object.rs:75-78 | sets the collider and leaves the other fields as they were |
| Objects.ObjectBuilder.WithColor | src/object.rs:80-83 | sets the colour and leaves the other fields as they were |
| Objects.ObjectBuilder.WithName | src/object.rs:85-88 | sets the name and leaves the other fields as they were |
| Objects.ObjectBuilder.Build | src/object.rs:90-99 | fails, with the source's message, exactly when no colour was given; otherwise the body and collider pass through unchanged, the colour is the given one, and the name is the given one or "some_object" |
| Objects.ColorIsRequired | src/object.rs:91 | without a colour no object is built, whatever else is set |
| Objects.ColorAloneSuffices | src/object.rs:92 | a colour alone builds an object with no body, no collider and the default name |
| Objects.ObjectSettersLastWins | src/object.rs:70-88 | a later call of the same setter overrides an earlier one |
| Objects.ObjectSettersCommute | src/object.rs:70-88 | setters of different fields commute |

## Left out

- `src/main.rs` is not part of this model. It holds the render and input loop, and an older copy of the camera, body, collider and object code that differs from the module files.
- `Object::draw` and `Camera::default` are left out. They call into the graphics library (drawing, screen size).
- `f32` rounding, NaN and infinity are left out: every number is an exact real. Where the code would divide by zero, the model requires a nonzero divisor instead.
- The square root is a parameter constrained by `IsSqrt`, not a computed function. Results about it go only as far as that property allows.
- `abs_diff_eq!` is modelled with its default tolerance, `f32::EPSILON` = 2^-23.
- The sequential-impulse solver and the step loop are not part of this model, and neither is the crate-root `Contact` type. `Contact` is built from its fields as the collider uses them.
- Rotation is left out of the collision geometry, as in the code. `angle` is only a field that `Update` advances.
- The collider tests receive body positions instead of bodies, because they read nothing else from a body.
- Colliders.PointAabbNearestPoint: requires a box collider, where the source panics when given a circle.
- Colliders.CircleCircle: requires distinct centres whenever the circles overlap. The source then divides by a zero distance and returns a NaN normal.
- Colliders.Collider.CollidesWith: carries the same requirement as `CircleCircle` for two circles.
- RigidBodies.BodyBuilder.Build: requires a nonzero inverse mass for a dynamic body with a shape. The source divides by it and would store an infinite inertia.
- Cameras.Camera.ZoomOut: requires a nonzero zoom factor. The source would divide by zero.
- Cameras.Camera.ScreenToWorld: requires both zoom components to be nonzero. The source would divide by zero.
- The `build` of the body builder is a function that returns the body's state as a value. `RigidBody2D`'s constructor turns that value into a body object.
- An object holds its body as a value (`BodyState`). In the source the body is moved into the object, so no other reference to it remains.
