# A Dafny model of the unit3 geometry kernel and game updates

This project models the narrow-phase geometry kernel of the `engine3d`
crate and the small per-frame state updates of the `camera3d` and
`anim3d` games built on it. It then proves what these updates promise.

- **Geometry kernel** (`engine3d/src/geom.rs`):
  - the shape records (sphere, plane, oriented box, axis-aligned box, ray) and their `translate` / `apply_impulse` behaviour;
  - the `Collide` predicates and displacements for sphere-sphere, sphere-plane and sphere-box;
  - the `Cast` ray casts against spheres, planes, oriented boxes and axis-aligned boxes.
- **Games**:
  - the camera3d player ball (impulses, gravity, speed cap, spin), its construction from a save, the three cameras, the marbles and the tilting wall;
  - the anim3d clip timer and its orbit camera.

Modelling choices:

- Every `f32` is an exact `real`. The constants f32::EPSILON, f32::MAX and PI keep their exact binary values.
- The square root that `magnitude`, `distance`, `normalize` and `sqrt` take is a parameter `sqrt: real -> real`. Members that need it require `IsSqrt(sqrt)`: the parameter is non-negative and squares back on non-negative arguments.
- A `panic!()` or failed `unwrap()` is the `Panic` value of `Outcomes.Outcome`.
- The frame time `DT` is a parameter `dt`.
- The engine's input state is the `Events.Events` record: mouse motion plus the sets of keys pressed and held.
- Reading the save file is an `Option<SaveFile>` handed to `Camera3d.NewPlayer`.

Module layout:

| module | contents |
|---|---|
| `Scalars` (scalars.dfy) | constants, `Abs`/`Min`/`Max`/`Clamp` as `f32` has them, square-root facts |
| `Vectors` (vectors.dfy) | cgmath's vectors, column matrices and quaternions |
| `Outcomes` (outcomes.dfy) | `Option` and `Outcome` |
| `Geom` (geom.dfy) | shapes, `translate`, `apply_impulse` |
| `Collide` (collide.dfy) | the `Collide` impls |
| `Cast` (cast.dfy) | ray-sphere and ray-plane casts |
| `Slabs` (slabs.dfy) | ray-box and ray-AABB slab casts |
| `Events` (events.dfy) | input |
| `Saves` (saves.dfy) | the save record |
| `Camera3d` (camera3d.dfy) | the camera3d updates |
| `Anim3d` (anim3d.dfy) | the anim3d updates |

How the slab casts are modelled:

- Each slab cast is a method with the source's loop and early returns.
- Its postcondition equates the result with a closed form, `Slabs.Clip`, which intersects the per-axis slabs with [0, f32::MAX].
- The meaning of the slabs is proved separately. The hit lies in the box (soundness). Any ray point inside the box comes at or after the hit (the hit is the first entry).

## Model

| member | source | states |
|---|---|---|
| Geom.Translate | engine3d/src/geom.rs:70-123 | Translating panics exactly for a plane. For every other shape the position (centre or ray origin) moves by v and every other field is kept. |
| Geom.TranslateRoundTrip | engine3d/src/geom.rs:26-28 | Translating by v and then by -v gives back the shape. |
| Geom.TranslateCompose | engine3d/src/geom.rs:26-28 | Two translations equal one translation by the sum. |
| Geom.InvertScalar | engine3d/src/geom.rs:45-52 | The scalar inertia matrix mr * I has an inverse exactly when mr != 0, and the inverse times mr is 1. |
| Geom.NormalIsUnit | engine3d/src/geom.rs:42 | disp / magnitude(disp) has unit length. |
| Geom.ContactArm | engine3d/src/geom.rs:37-44 | The lever arm contact_point - c is the radius times the normal. |
| Geom.Respond | engine3d/src/geom.rs:43-59 | The impulse response changes only the momenta: centre, radius and mass are kept. |
| Geom.SphereApplyImpulse | engine3d/src/geom.rs:29-61 | A sphere's `apply_impulse` panics exactly when the inertia mr = 2/5 m r^2 is zero, and otherwise keeps centre, radius and mass. |
| Geom.ApplyImpulse | engine3d/src/geom.rs:74-122 | `apply_impulse` completes exactly for a sphere of non-zero inertia: plane, box, AABB and ray panic. It keeps the position. |
| Geom.ContactVelocityAlongNormal | engine3d/src/geom.rs:43-51 | The angular part w x r of the contact velocity contributes nothing along n. |
| Geom.ContactImpulseIsBounce | engine3d/src/geom.rs:51-56 | Because r is parallel to n, the denominator collapses to 1/m and j = -(1 + e) m (p . n). |
| Geom.RespondClosedForm | engine3d/src/geom.rs:51-59 | The angular momentum is never changed (r x j n = 0), and the linear momentum gains j n. |
| Geom.TransferAlongDisp | engine3d/src/geom.rs:37-58 | The momentum change along the normal equals a multiple of disp itself. |
| Geom.ImpulseClosedForm | engine3d/src/geom.rs:29-61 | A successful impulse moves the linear momentum along disp by -(1 + e) m (p . disp) / abs(disp)^2 and leaves the angular momentum unchanged. |
| Geom.ImpulseBounce | engine3d/src/geom.rs:29-61 | The momentum component along disp is scaled by 1 - (1 + e) m and the component across it is kept. For unit mass the normal momentum becomes -0.9 times itself. |
| Collide.SpheresTouchingSymmetric | engine3d/src/geom.rs:133-137 | Sphere-sphere `touching` (squared distance <= squared radius sum) does not depend on the order. |
| Collide.SpheresDispExists | engine3d/src/geom.rs:139-152 | `disp` is Some exactly when the radius sum R is positive and the squared centre distance is strictly below R^2. Any Some is `touching`. |
| Collide.SpheresDispAtReach | engine3d/src/geom.rs:133-151 | Spheres exactly R apart are `touching` but get no displacement (the boundary is inclusive for `touching` and strict for `disp`). |
| Collide.SpheresDispCoincident | engine3d/src/geom.rs:143-148 | Coincident centres give Some(zero vector), since the distance is replaced by 1, or None when R <= 0. |
| Collide.SpheresDispAntisymmetric | engine3d/src/geom.rs:139-152 | Swapping the spheres negates the displacement. |
| Collide.SpheresDispApart | engine3d/src/geom.rs:139-149 | For centres apart, the distance d satisfies 0 < d < R, and `disp` is the offset scaled by (R - d) / d. |
| Collide.SpheresDispDirection | engine3d/src/geom.rs:140-148 | `disp` is parallel to and points along s2.c - s1.c, and its length is R - d. |
| Collide.SpheresDispSeparates | engine3d/src/geom.rs:139-152 | Moving s2 by `disp` leaves the spheres exactly R apart: still `touching`, with no further displacement. |
| Collide.SpherePlaneDisp | engine3d/src/geom.rs:160-171 | The sphere-plane displacement is parallel to the plane normal. |
| Collide.SpherePlaneDispExists | engine3d/src/geom.rs:156-171 | `disp` is Some exactly when `touching` holds, and `touching` holds exactly when the signed distance c . n - d lies in [-r, r]. A negative radius never touches. |
| Collide.SpherePlaneResolves | engine3d/src/geom.rs:160-171 | For a unit normal, moving by `disp` rests the centre exactly r from the plane, and the next `disp` is the zero vector. |
| Collide.ClosestPoint | engine3d/src/geom.rs:176-187 | The clamped point lies in the box when the half sizes are non-negative, and is the centre itself when the centre is inside. |
| Collide.SphereAABBTouchingSquared | engine3d/src/geom.rs:175-194 | Sphere-AABB `touching` holds exactly when r > 0 and the squared distance to the clamped point is strictly below r^2. |
| Collide.ClosestIsNearest | engine3d/src/geom.rs:176-187 | No point of the box [c - h, c + h] is closer to q than the clamped point. |
| Collide.SphereAABBTouchingMeaning | engine3d/src/geom.rs:175-194 | For a box with non-negative half sizes, sphere-AABB `touching` holds exactly when r > 0 and some point of the box lies strictly within r of the centre. |
| Collide.CentreInBoxTouches | engine3d/src/geom.rs:175-194 | A sphere of positive radius whose centre is in the box touches it. |
| Collide.SphereAABBDisp | engine3d/src/geom.rs:196-215 | Sphere-AABB `disp` is None on every input. |
| Collide.SphereAABBTouchingWithoutDisp | engine3d/src/geom.rs:125-130 | The trait's default `touching` is `disp(..).is_some()`, but the sphere-AABB pair breaks that link: a unit sphere at the centre of a unit box touches it with no displacement. |
| Cast.RaySphere | engine3d/src/geom.rs:224-236 | A ray-sphere hit has t >= 0 and the point p + t dir. |
| Cast.RayQuadratic | engine3d/src/geom.rs:226-229 | Along a unit direction, the squared distance to the centre minus r^2 is t^2 + 2bt + c, with the b and c the cast computes. |
| Cast.RaySphereHitInBall | engine3d/src/geom.rs:224-236 | For a unit direction, a hit lies in the closed ball, and on the sphere when t > 0. |
| Cast.RaySphereHitIsFirst | engine3d/src/geom.rs:224-236 | For a unit direction, no ray point before the hit is in the ball. |
| Cast.RaySphereMiss | engine3d/src/geom.rs:230-232 | For a unit direction, when the cast reports None, no point of the ray is in the ball. |
| Cast.RayPlane | engine3d/src/geom.rs:237-250 | A ray-plane hit has t >= 0 and the point p + t dir. |
| Cast.RayPlaneHitOnPlane | engine3d/src/geom.rs:243-248 | The hit point satisfies point . n == d. |
| Cast.RayPlaneOnlyCrossing | engine3d/src/geom.rs:237-250 | When dir . n != 0, any ray point with t >= 0 on the plane is exactly the reported hit. |
| Cast.RayPlaneInPlaneMisses | engine3d/src/geom.rs:239-242 | A ray lying in the plane is reported as a miss, although every point of it is on the plane. |
| Slabs.LowerGrows | engine3d/src/geom.rs:270 | tmin never decreases along the sweep. |
| Slabs.UpperShrinks | engine3d/src/geom.rs:271 | tmax never increases along the sweep. |
| Slabs.LowerIsBound | engine3d/src/geom.rs:253-270 | tmin is at least 0 and at least every slab's lower end. |
| Slabs.UpperIsBound | engine3d/src/geom.rs:254-271 | tmax is at most f32::MAX and at most every slab's upper end. |
| Slabs.LowerIsLeast | engine3d/src/geom.rs:253-270 | Any t >= 0 above every lower end is at least tmin. |
| Slabs.UpperIsGreatest | engine3d/src/geom.rs:254-271 | Any t <= f32::MAX below every upper end is at most tmax. |
| Slabs.EmptyEarly | engine3d/src/geom.rs:272-274 | Once tmin > tmax, the whole sweep yields no hit, so the early return is right. |
| Slabs.ClipSound | engine3d/src/geom.rs:251-279 | A reported parameter lies in [0, f32::MAX] and in every slab. |
| Slabs.ClipComplete | engine3d/src/geom.rs:251-279 | When some parameter lies in every slab, a hit is reported at or before it. |
| Slabs.RayBox | engine3d/src/geom.rs:251-279 | The ray-box loop, with its two early returns, computes the closed-form intersection of the axis slabs. |
| Slabs.BoxSlabSound | engine3d/src/geom.rs:258-269 | On an axis exactly parallel or at least f32::EPSILON away from it, a parameter in the slab puts the ray between the two faces across that axis. |
| Slabs.BoxSlabComplete | engine3d/src/geom.rs:258-269 | On an axis at least f32::EPSILON from parallel, a ray point between the faces has its parameter in the slab. |
| Slabs.RayBoxHitInside | engine3d/src/geom.rs:251-279 | The ray-box hit lies between the faces across every such axis. |
| Slabs.RayBoxHitIsFirst | engine3d/src/geom.rs:251-279 | With no near-parallel axis, every ray point inside the box comes at or after the reported hit. |
| Slabs.RayAabb | engine3d/src/geom.rs:280-307 | The ray-AABB loop as written, with the parallel test against the lower face only, computes the closed-form intersection of its slabs. |
| Slabs.RayAabbChecked | engine3d/src/geom.rs:286-291 | The same loop with the parallel test against both faces computes the intersection of the corrected slabs. |
| Slabs.AabbSpanMeaning | engine3d/src/geom.rs:293-298 | For a non-parallel axis, t is in the span of the two face parameters exactly when the ray's coordinate at t is between the faces. |
| Slabs.AabbSlabCheckedSound | engine3d/src/geom.rs:286-298 | With both faces checked, a parameter in a resolved axis's slab puts the ray within that axis's faces. |
| Slabs.AabbSlabComplete | engine3d/src/geom.rs:286-298 | On a resolved axis, a ray point within the faces has its parameter in both versions of the slab. |
| Slabs.RayAabbCheckedHitInBox | engine3d/src/geom.rs:280-307 | With both faces checked and every direction component resolved, the hit lies in the box. |
| Slabs.RayAabbHitIsFirst | engine3d/src/geom.rs:280-307 | In both versions, when every direction component is exactly 0 or at least f32::EPSILON in size, every ray point inside the box comes at or after the reported hit. |
| Slabs.RayAabbHitsAbove | engine3d/src/geom.rs:286-291 | As written, a ray passing above a unit box parallel to its y faces gets a hit at (0, 5, -1), outside the box. The corrected cast reports no hit. |
| Camera3d.ApplyImpulse | camera3d/src/main.rs:52-56 | The momenta grow by exactly l and a, and nothing else changes. |
| Camera3d.ApplyImpulseUndo | camera3d/src/main.rs:52-56 | The opposite impulse undoes an impulse. |
| Camera3d.ApplyImpulseTwice | camera3d/src/main.rs:52-56 | Two impulses add up to their sum. |
| Camera3d.Integrate | camera3d/src/main.rs:35-50 | One frame: the linear momentum falls by G DT, the velocity is the new momentum capped at MAX_SPEED, the angular momentum is kept and copied to omega, the rotation takes one Euler step of it, the centre advances by velocity DT, and radius, mass and acc are kept. |
| Camera3d.CapSpeedBound | camera3d/src/main.rs:41-43 | A velocity within MAX_SPEED is kept. A faster one is shrunk by a factor in (0, 1) to exactly MAX_SPEED. |
| Camera3d.IntegrateSpeedBound | camera3d/src/main.rs:38-43 | After a frame the speed is at most MAX_SPEED = 3, and the velocity equals the momentum when that is within the cap. |
| Camera3d.SpinNorm | camera3d/src/main.rs:47-48 | The orientation step rot += DT/2 (0, omega) rot grows abs(rot)^2 by the factor 1 + (DT/2)^2 abs(omega)^2, so it does not keep a unit quaternion unit. |
| Camera3d.IntegrateNoSpin | camera3d/src/main.rs:47-48 | With zero angular momentum the orientation is unchanged. |
| Camera3d.NewPlayer | camera3d/src/main.rs:58-94 | A new player has radius 0.3, mass 1, zero momenta, zero velocity, acc and omega, and the identity rotation; it starts at the saved location, or at (0, 3, 0) without a save. |
| Camera3d.LoadAfterSave | camera3d/src/main.rs:62-67 | Loading the location that `new_save` records for a position starts the player at that position. |
| Camera3d.TurnStill | camera3d/src/main.rs:121-123 | With no mouse motion, a pitch already within the limits is unchanged. |
| Camera3d.UpdateFP | camera3d/src/main.rs:120-126 | The FP pitch ends in [-PI/4, PI/4] and equals pitch + dy/100 when that is in range. The player's centre and rotation are copied. |
| Camera3d.UpdateFPSettles | camera3d/src/main.rs:120-126 | A second update in an idle frame changes nothing. |
| Camera3d.ZoomSteps | camera3d/src/main.rs:167-172 | A zoom moves the distance by -0.5 (Up), +0.5 (Down) or 0 (both or neither). |
| Camera3d.UpdateOrbit | camera3d/src/main.rs:160-176 | Pitch and yaw both end in [-PI/4, PI/4] and follow the mouse when in range. The player's centre and rotation are copied. |
| Camera3d.UpdateOrbitDistance | camera3d/src/main.rs:167-172 | Up pressed alone brings the camera 0.5 closer, Down alone moves it 0.5 away, and both or neither leave the distance unchanged. |
| Camera3d.UpdateOrbitSettles | camera3d/src/main.rs:160-176 | A second update in an idle frame changes nothing. |
| Camera3d.OrbitUpdateCamera | camera3d/src/main.rs:177-192 | The orbit camera only retargets the renderer's camera at the player. The eye is left where it was. |
| Camera3d.UpdateTopDown | camera3d/src/main.rs:208-216 | The top-down camera copies the player's centre. |
| Camera3d.UpdateTopDownDistance | camera3d/src/main.rs:209-214 | The top-down camera zooms exactly as the orbit camera does. |
| Camera3d.TopDownUpdateCamera | camera3d/src/main.rs:217-223 | The target is the player. The eye is `distance` above it and 0.001 behind along z. |
| Camera3d.TopDownEyeDistance | camera3d/src/main.rs:217-223 | The squared eye-target distance is distance^2 + 0.001^2. |
| Camera3d.IntegrateMarbles | camera3d/src/main.rs:241-248 | Every velocity's y falls by G DT with x and z kept. Each body with a velocity at its index advances by the new velocity DT; bodies past the shorter list, and all radii, masses and momenta, are kept. |
| Camera3d.WallInput | camera3d/src/main.rs:275-290 | Each control becomes -1, 0 or 1, and the plane is kept. |
| Camera3d.WallInputKeys | camera3d/src/main.rs:275-290 | A control is -1 exactly when A (resp. W) is held, and 1 exactly when D (resp. S) is held without it: A beats D and W beats S. |
| Camera3d.WallInputForgets | camera3d/src/main.rs:275-290 | The new controls depend only on the keys held, not on the old controls. |
| Anim3d.Integrate | anim3d/src/main.rs:27-35 | The step panics exactly when the clock passes 4 with no clips. Otherwise the clock advances by DT with the clip kept, or, past 4, restarts at exactly 0 with clip (anim + 1) mod len. The position is kept. |
| Anim3d.IntegrateValid | anim3d/src/main.rs:27-35 | A non-negative step keeps 0 <= t <= 4 and anim < len, and never panics. |
| Anim3d.RunValid | anim3d/src/main.rs:27-35 | Any number of frames keeps the player valid and in place. |
| Anim3d.RunWithinClip | anim3d/src/main.rs:28-29 | While t + k DT <= 4, k frames advance the clock by exactly k DT and keep the clip. |
| Anim3d.RunWraps | anim3d/src/main.rs:29-33 | The frame that takes the clock past 4 restarts it at 0 and moves to the next clip, wrapping around. |
| Anim3d.UpdateOrbit | anim3d/src/main.rs:55-70 | Pitch ends in [-PI/4, PI/4] and yaw in [-PI, PI], each following the mouse when in range. The player's position is copied. |
| Anim3d.UpdateOrbitDistance | anim3d/src/main.rs:62-67 | Up held alone brings the camera 0.5 closer, Down held alone moves it 0.5 away, and both or neither leave the distance unchanged. |
| Anim3d.UpdateOrbitSettles | anim3d/src/main.rs:55-70 | A second update in an idle frame changes nothing. |

## Left out

- Floating point: rounding, NaN, infinities and overflow are not modelled; every `f32` is a real.
- Square roots are a parameter. Members that need the square root's properties require `IsSqrt`.
- Geom.ApplyImpulse: requires a non-zero `disp` for a sphere, the same exclusion as Geom.SphereApplyImpulse, to which it dispatches.
- Geom.SphereApplyImpulse: requires a non-zero `disp`, because `normalize` of the zero vector yields NaN components, which reals cannot represent.
- The `println!` calls in `apply_impulse`, sphere-AABB `touching` and `disp`, camera3d's `Player::new` ("No save starting new game") and anim3d's `integrate`: output only.
- Geom.ImpulseBounce: states the bounce for any mass. The formula divides by 1/m although the momentum is used as a velocity, so only unit-mass bodies, which are all the program creates, bounce with restitution 0.9.
- Collide.SpheresDispApart, Collide.SpheresDispDirection, Collide.SpheresDispSeparates: stated for centres apart (`Dist2 != 0`); the coincident case is Collide.SpheresDispCoincident.
- Cast.RaySphereHitInBall, Cast.RaySphereHitIsFirst, Cast.RaySphereMiss: stated for unit directions. The cast's formula takes the quadratic's leading coefficient to be 1.
- Slabs.RayBoxHitInside: stated for axes exactly parallel to the ray or at least f32::EPSILON away from it. For 0 < abs(f) < f32::EPSILON the cast divides by f32::EPSILON instead of f, and the hit need not lie between those faces.
- Slabs.RayAabbHitIsFirst: stated only when every direction component is 0 or at least f32::EPSILON in size. With 0 < abs(dir[i]) < f32::EPSILON and p[i] just below min[i], both versions return no hit, although the ray enters the box at the finite t = (min[i] - p[i]) / dir[i].
- Slabs.RayBoxHitIsFirst: stated with no near-parallel axis. On an exactly parallel axis the division by f32::EPSILON bounds the parameter range at abs(e +- h) / f32::EPSILON.
- The 3x3 `invert()` is modelled only for the scalar matrix mr * I that the source builds.
- `update_camera` of the FP camera and of the anim3d orbit camera: not modelled. Both build rotations from Euler angles (trigonometry).
- The cameras' `new` constructors: constant records, not modelled.
- `Wall::integrate` (camera3d/src/main.rs:291-298): not modelled; it normalises the tilted normal through a square root and is commented out of the game loop.
- `Cube::integrate`: not modelled.
- `Game::start`/`update`, rendering, sound, the animation rig and asset loading: not modelled; orchestration and I/O.
- The unseen `collision` module's contact gathering and restitution: not part of this model.
- `Bivector3`: unused.
- `parse_save`/`new_save` file and JSON handling: not modelled. A load is the `Option<SaveFile>` given to Camera3d.NewPlayer, and a save is `Saves.SaveOf`.
- Anim3d.Integrate: `anim` is an unbounded natural, so the `usize` increment cannot overflow. A valid player's index is below the clip count anyway.

## Findings

| source | as written | input that shows it | evidently intended | confidence | as-written member | corrected member |
|---|---|---|---|---|---|---|
| engine3d/src/geom.rs:286-291 | For a direction component within f32::EPSILON of zero, the ray-AABB cast gives up only when p[i] < min[i]; an origin above max[i] is let through | AABB centred at the origin with half sizes (1, 1, 1); ray from (0, 5, -5) along (0, 0, 1): hit reported at t = 4, point (0, 5, -1), outside the box | Reject when p[i] < min[i] or p[i] > max[i], as the ray-box cast does for its parallel axes; then every hit lies in the box (Slabs.RayAabbCheckedHitInBox) | high; not executed | Slabs.RayAabbHitsAbove | Slabs.RayAabbChecked |
