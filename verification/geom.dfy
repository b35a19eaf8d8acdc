/**
  The shape records of the engine's geometry kernel and the `Shape` trait
  operations `translate` and `apply_impulse`. Static shapes reject
  `apply_impulse` (and a plane rejects `translate`) by panicking.
 */
module Geom {
  import opened Scalars
  import opened Vectors
  import opened Outcomes

  /** A dynamic rigid body: centre, radius, linear and angular momentum, mass. */
  datatype Sphere = Sphere(c: Pos3, r: real, linMom: Vec3, angMom: Vec3, mass: real)

  /** The points p with p . n == d. */
  datatype Plane = Plane(n: Vec3, d: real)

  /** An oriented box: centre, axis frame (columns) and half extents along each axis. */
  datatype Box = Box(c: Pos3, axes: Mat3, halfSizes: Vec3)

  /** An axis-aligned box: centre and half extents. */
  datatype AABB = AABB(c: Pos3, halfSizes: Vec3)

  /** q lies in the closed box [c - h, c + h]. */
  predicate InBox(q: Pos3, c: Pos3, h: Vec3) {
    c.x - h.x <= q.x <= c.x + h.x && c.y - h.y <= q.y <= c.y + h.y && c.z - h.z <= q.z <= c.z + h.z
  }

  /** The half line p + t * dir, t >= 0. */
  datatype Ray = Ray(p: Pos3, dir: Vec3)

  /** The five implementors of the `Shape` trait as one tagged union. */
  datatype Shape =
    | SphereShape(sphere: Sphere)
    | PlaneShape(plane: Plane)
    | BoxShape(box: Box)
    | AABBShape(aabb: AABB)
    | RayShape(ray: Ray)

  /** The point a translation moves: the centre, or a ray's origin; a plane has none. */
  function Position(s: Shape): Option<Pos3> {
    match s
    case SphereShape(sp) => Some(sp.c)
    case PlaneShape(_) => None
    case BoxShape(b) => Some(b.c)
    case AABBShape(b) => Some(b.c)
    case RayShape(ray) => Some(ray.p)
  }

  /** The shape with its position replaced by the origin: every field a translation must keep. */
  function Frame(s: Shape): Shape {
    match s
    case SphereShape(sp) => SphereShape(sp.(c := Zero))
    case PlaneShape(_) => s
    case BoxShape(b) => BoxShape(b.(c := Zero))
    case AABBShape(b) => AABBShape(b.(c := Zero))
    case RayShape(ray) => RayShape(ray.(p := Zero))
  }

  /** `Shape::translate`: adds v to the position; a plane panics. */
  function Translate(s: Shape, v: Vec3): (r: Outcome<Shape>)
    ensures r.Panic? <==> s.PlaneShape?
    ensures r.Done? ==> Position(s).Some? && Position(r.value) == Some(Add(Position(s).value, v))
    ensures r.Done? ==> Frame(r.value) == Frame(s)
  {
    match s
    case SphereShape(sp) => Done(SphereShape(sp.(c := Add(sp.c, v))))
    case PlaneShape(_) => Panic
    case BoxShape(b) => Done(BoxShape(b.(c := Add(b.c, v))))
    case AABBShape(b) => Done(AABBShape(b.(c := Add(b.c, v))))
    case RayShape(ray) => Done(RayShape(ray.(p := Add(ray.p, v))))
  }

  /** Translating back by -v undoes a translation by v. */
  lemma TranslateRoundTrip(s: Shape, v: Vec3)
    requires !s.PlaneShape?
    ensures Translate(s, v).Done?
    ensures Translate(Translate(s, v).value, Neg(v)) == Done(s)
  {
  }

  /** Two translations compose into one by the sum of the offsets. */
  lemma TranslateCompose(s: Shape, v: Vec3, w: Vec3)
    requires !s.PlaneShape?
    ensures Translate(Translate(s, v).value, w) == Translate(s, Add(v, w))
  {
  }

  /** The restitution coefficient `e` of `Sphere::apply_impulse`. */
  const RESTITUTION: real := 0.9

  /** The moment of inertia of a solid sphere, 2/5 m r^2, the diagonal of its inertia tensor. */
  function Inertia(s: Sphere): real {
    (2.0 / 5.0) * s.mass * s.r * s.r
  }

  /**
    cgmath's `invert` of the scalar matrix k * Identity: its determinant is
    k^3, so there is an inverse, (1/k) * Identity, exactly when k != 0.
   */
  function InvertScalar(k: real): (r: Option<real>)
    ensures r.Some? <==> k != 0.0
    ensures r.Some? ==> r.value * k == 1.0
  {
    if k == 0.0 then None else Some(1.0 / k)
  }

  /** `disp.normalize()`: disp scaled by the reciprocal of its length. */
  function Normal(disp: Vec3, sqrt: real -> real): (n: Vec3)
    requires IsSqrt(sqrt)
    requires Norm2(disp) != 0.0
  {
    Norm2NonNegative(disp);
    Scale(1.0 / sqrt(Norm2(disp)), disp)
  }

  /** The normal has unit length. */
  lemma NormalIsUnit(disp: Vec3, sqrt: real -> real)
    requires IsSqrt(sqrt)
    requires Norm2(disp) != 0.0
    ensures Norm2(Normal(disp, sqrt)) == 1.0
  {
    Norm2NonNegative(disp);
    var mag := sqrt(Norm2(disp));
    assert mag * mag == Norm2(disp);
    Norm2Scale(1.0 / mag, disp);
    assert (1.0 / mag) * (1.0 / mag) * (mag * mag) == 1.0;
  }

  /**
    The response of `apply_impulse` to the contact normal n once the inertia
    tensor has been inverted to inv * Identity: the contact point lies one
    radius along n, the contact velocity is v = p + w x r, and the impulse
    j = -(1 + e) (v . n) / (1/m + (inv ((r x n) x r)) . n) is added to the
    linear momentum along n and as r x (j n) to the angular momentum.
   */
  function Respond(s: Sphere, n: Vec3, inv: real): (r: Sphere)
    requires s.mass != 0.0
    ensures r.c == s.c && r.r == s.r && r.mass == s.mass
  {
    var rel := ContactArm(s, n);
    var j := ContactImpulse(s, n, inv);
    s.(linMom := Add(s.linMom, Scale(j, n)), angMom := Add(s.angMom, Cross(rel, Scale(j, n))))
  }

  /** The lever arm from the centre to the contact point one radius along n. */
  function ContactArm(s: Sphere, n: Vec3): (r: Vec3)
    ensures r == Scale(s.r, n)
  {
    Sub(Add(s.c, Scale(s.r, n)), s.c)
  }

  /** The impulse magnitude j; the arm is parallel to n, so the denominator is 1/m. */
  function ContactImpulse(s: Sphere, n: Vec3, inv: real): real
    requires s.mass != 0.0
  {
    var rel := ContactArm(s, n);
    var v := Add(s.linMom, Cross(s.angMom, rel));
    CrossParallel(s.r, n);
    var num := -(1.0 + RESTITUTION) * Dot(v, n);
    var den := (1.0 / s.mass) + Dot(Scale(inv, Cross(Cross(rel, n), rel)), n);
    assert den == 1.0 / s.mass;
    num / den
  }

  /**
    `Sphere::apply_impulse` for a contact whose separating displacement is
    `disp`: normalise it and respond along the normal. Inverting the inertia
    tensor panics when it is singular.
   */
  function SphereApplyImpulse(s: Sphere, disp: Vec3, sqrt: real -> real): (res: Outcome<Sphere>)
    requires IsSqrt(sqrt)
    requires Norm2(disp) != 0.0
    ensures res.Panic? <==> Inertia(s) == 0.0
    ensures res.Done? ==> res.value.c == s.c && res.value.r == s.r && res.value.mass == s.mass
  {
    match InvertScalar(Inertia(s))
    case None => Panic
    case Some(inv) =>
      assert s.mass != 0.0;
      Done(Respond(s, Normal(disp, sqrt), inv))
  }

  /** `Shape::apply_impulse`: only a sphere responds; every other shape panics. */
  function ApplyImpulse(s: Shape, disp: Vec3, sqrt: real -> real): (r: Outcome<Shape>)
    requires IsSqrt(sqrt)
    requires s.SphereShape? ==> Norm2(disp) != 0.0
    ensures r.Done? <==> s.SphereShape? && Inertia(s.sphere) != 0.0
    ensures r.Done? ==> r.value.SphereShape? && Position(r.value) == Position(s)
  {
    match s
    case SphereShape(sp) =>
      (match SphereApplyImpulse(sp, disp, sqrt)
       case Done(sp') => Done(SphereShape(sp'))
       case Panic => Panic)
    case _ => Panic
  }

  /** The angular term of the contact velocity is orthogonal to the normal. */
  lemma ContactVelocityAlongNormal(p: Vec3, w: Vec3, r: real, n: Vec3)
    ensures Dot(Add(p, Cross(w, Scale(r, n))), n) == Dot(p, n)
  {
    CrossScaleRight(w, r, n);
    CrossOrthogonal(w, n);
    DotScaleLeft(r, Cross(w, n), n);
    DotAddLeft(p, Cross(w, Scale(r, n)), n);
  }

  /** The impulse j of a bounce along n once the angular terms have vanished: -(1 + e) m (p . n). */
  function BounceImpulse(s: Sphere, n: Vec3): real {
    -(1.0 + RESTITUTION) * s.mass * Dot(s.linMom, n)
  }

  /**
    Whatever the inverted inertia, the response leaves the angular momentum
    alone and changes the linear momentum by -(1 + e) m (p . n) along n: the
    lever arm is parallel to n, so every angular term vanishes.
   */
  lemma RespondClosedForm(s: Sphere, n: Vec3, inv: real)
    requires s.mass != 0.0
    ensures Respond(s, n, inv).angMom == s.angMom
    ensures Respond(s, n, inv).linMom == Add(s.linMom, Scale(BounceImpulse(s, n), n))
  {
    var j := ContactImpulse(s, n, inv);
    ContactImpulseIsBounce(s, n, inv);
    CrossParallel(s.r, n);
    CrossScaleRight(Scale(s.r, n), j, n);
    assert Cross(ContactArm(s, n), Scale(j, n)) == Zero;
  }

  /** With the angular terms gone, j = -(1 + e) (p . n) / (1/m) = -(1 + e) m (p . n). */
  lemma ContactImpulseIsBounce(s: Sphere, n: Vec3, inv: real)
    requires s.mass != 0.0
    ensures ContactImpulse(s, n, inv) == BounceImpulse(s, n)
  {
    CrossParallel(s.r, n);
    ContactVelocityAlongNormal(s.linMom, s.angMom, s.r, n);
    var num := -(1.0 + RESTITUTION) * Dot(s.linMom, n);
    DivByInverse(num, s.mass);
  }

  /** The multiple of `disp` a bounce adds to the linear momentum: -(1 + e) m (p . disp) / |disp|^2. */
  function MomentumTransfer(s: Sphere, disp: Vec3): real
    requires Norm2(disp) != 0.0
  {
    -(1.0 + RESTITUTION) * s.mass * Dot(s.linMom, disp) / Norm2(disp)
  }

  /** The scalar algebra of the impulse: c (p . k d) (k d) == c k^2 (p . d) d with k^2 = 1/|d|^2. */
  lemma ImpulseCoefficient(c: real, k: real, mag: real, n2: real, pd: real, pn: real)
    requires mag * mag == n2 && n2 != 0.0
    requires k == 1.0 / mag && pn == k * pd
    ensures c * pn * k == c * pd / n2
  {
    assert k * k == 1.0 / n2;
  }

  /** A change of c m (p . n) along the normal is MomentumTransfer along disp. */
  lemma TransferAlongDisp(s: Sphere, disp: Vec3, sqrt: real -> real)
    requires IsSqrt(sqrt)
    requires Norm2(disp) != 0.0
    ensures Scale(BounceImpulse(s, Normal(disp, sqrt)), Normal(disp, sqrt))
      == Scale(MomentumTransfer(s, disp), disp)
  {
    Norm2NonNegative(disp);
    var mag := sqrt(Norm2(disp));
    assert mag * mag == Norm2(disp);
    var k := 1.0 / mag;
    DotScaleRight(k, s.linMom, disp);
    assert Normal(disp, sqrt) == Scale(k, disp);
    ImpulseCoefficient(-(1.0 + RESTITUTION) * s.mass, k, mag, Norm2(disp), Dot(s.linMom, disp), Dot(s.linMom, Normal(disp, sqrt)));
    assert BounceImpulse(s, Normal(disp, sqrt)) * k == MomentumTransfer(s, disp);
    ScaleScale(BounceImpulse(s, Normal(disp, sqrt)), k, disp);
  }

  /**
    The closed form of a successful `apply_impulse`: the angular momentum is
    unchanged and the linear momentum moves along `disp` by MomentumTransfer.
   */
  lemma ImpulseClosedForm(s: Sphere, disp: Vec3, sqrt: real -> real)
    requires IsSqrt(sqrt)
    requires Norm2(disp) != 0.0
    requires Inertia(s) != 0.0
    ensures SphereApplyImpulse(s, disp, sqrt).Done?
    ensures SphereApplyImpulse(s, disp, sqrt).value.angMom == s.angMom
    ensures SphereApplyImpulse(s, disp, sqrt).value.linMom
      == Add(s.linMom, Scale(MomentumTransfer(s, disp), disp))
  {
    assert s.mass != 0.0;
    var n := Normal(disp, sqrt);
    assert SphereApplyImpulse(s, disp, sqrt) == Done(Respond(s, n, 1.0 / Inertia(s)));
    RespondClosedForm(s, n, 1.0 / Inertia(s));
    TransferAlongDisp(s, disp, sqrt);
  }

  /** Adding a multiple of d to p changes p . d by that multiple of |d|^2 and leaves p x d alone. */
  lemma AddAlong(p: Vec3, t: real, d: Vec3)
    ensures Dot(Add(p, Scale(t, d)), d) == Dot(p, d) + t * Norm2(d)
    ensures Cross(Add(p, Scale(t, d)), d) == Cross(p, d)
  {
    DotAddLeft(p, Scale(t, d), d);
    DotScaleLeft(t, d, d);
    CrossParallel(t, d);
    assert Cross(Add(p, Scale(t, d)), d).x == Cross(p, d).x + Cross(Scale(t, d), d).x;
    assert Cross(Add(p, Scale(t, d)), d).y == Cross(p, d).y + Cross(Scale(t, d), d).y;
    assert Cross(Add(p, Scale(t, d)), d).z == Cross(p, d).z + Cross(Scale(t, d), d).z;
  }

  /**
    What a bounce does to the momentum: the component along `disp` becomes
    (1 - (1 + e) m) times what it was, the component across it is kept.
    For the unit mass every body of the program has, the normal momentum is
    reversed and damped by the restitution coefficient.
   */
  lemma ImpulseBounce(s: Sphere, disp: Vec3, sqrt: real -> real)
    requires IsSqrt(sqrt)
    requires Norm2(disp) != 0.0
    requires Inertia(s) != 0.0
    ensures SphereApplyImpulse(s, disp, sqrt).Done?
    ensures Dot(SphereApplyImpulse(s, disp, sqrt).value.linMom, disp)
      == Dot(s.linMom, disp) - (1.0 + RESTITUTION) * s.mass * Dot(s.linMom, disp)
    ensures Cross(SphereApplyImpulse(s, disp, sqrt).value.linMom, disp) == Cross(s.linMom, disp)
    ensures s.mass == 1.0 ==> Dot(SphereApplyImpulse(s, disp, sqrt).value.linMom, disp) == -RESTITUTION * Dot(s.linMom, disp)
  {
    ImpulseClosedForm(s, disp, sqrt);
    AddAlong(s.linMom, MomentumTransfer(s, disp), disp);
    TransferTimesNorm(s, disp);
  }

  /** The transfer along `disp` times |disp|^2 is the change of p . disp. */
  lemma TransferTimesNorm(s: Sphere, disp: Vec3)
    requires Norm2(disp) != 0.0
    ensures MomentumTransfer(s, disp) * Norm2(disp) == -(1.0 + RESTITUTION) * s.mass * Dot(s.linMom, disp)
  {
  }
}
