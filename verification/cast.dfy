/**
  The `Cast` implementations of the geometry kernel: where a ray first meets
  a sphere or a plane, as closed forms with the facts that make them correct.
  The slab casts against boxes are in module `Slabs`.
 */
module Cast {
  import opened Scalars
  import opened Vectors
  import opened Outcomes
  import opened Geom

  /** `CastHit`'s payload: the point where the ray meets the shape and its ray parameter. */
  datatype Hit = Hit(point: Pos3, t: real)

  /** The point p + t * dir of a ray. */
  function RayAt(ray: Ray, t: real): Pos3 {
    Add(ray.p, Scale(t, ray.dir))
  }

  // ---------------------------------------------------------------------
  // Ray x Sphere
  // ---------------------------------------------------------------------

  /** b = dir . (p - c): half the linear coefficient of the ray's squared distance. */
  function SphereB(ray: Ray, s: Sphere): real {
    Dot(ray.dir, Sub(ray.p, s.c))
  }

  /** c = |p - c|^2 - r^2: positive exactly when the origin is outside the sphere. */
  function SphereC(ray: Ray, s: Sphere): real {
    Norm2(Sub(ray.p, s.c)) - s.r * s.r
  }

  /** The discriminant b^2 - c of t^2 + 2bt + c. */
  function SphereDiscr(ray: Ray, s: Sphere): real {
    SphereB(ray, s) * SphereB(ray, s) - SphereC(ray, s)
  }

  /**
    `Cast<Sphere> for Ray`: no hit when the origin is outside and the ray
    points away, or when the discriminant b^2 - c is negative; otherwise the
    smaller root of t^2 + 2bt + c, clamped at 0 for an origin inside.
   */
  function RaySphere(ray: Ray, s: Sphere, sqrt: real -> real): (r: Option<Hit>)
    ensures r.Some? ==> r.value.t >= 0.0 && r.value.point == RayAt(ray, r.value.t)
  {
    var b := SphereB(ray, s);
    var c := SphereC(ray, s);
    var discr := SphereDiscr(ray, s);
    if (c > 0.0 && b > 0.0) || discr < 0.0 then
      None
    else
      var t := Max(-b - sqrt(discr), 0.0);
      Some(Hit(RayAt(ray, t), t))
  }

  /** |m + t d|^2 expanded. */
  lemma Norm2AddScale(m: Vec3, t: real, d: Vec3)
    ensures Norm2(Add(m, Scale(t, d))) == Norm2(m) + 2.0 * t * Dot(d, m) + t * t * Norm2(d)
  {
    assert (m.x + t * d.x) * (m.x + t * d.x) == m.x * m.x + 2.0 * t * (d.x * m.x) + t * t * (d.x * d.x);
    assert (m.y + t * d.y) * (m.y + t * d.y) == m.y * m.y + 2.0 * t * (d.y * m.y) + t * t * (d.y * d.y);
    assert (m.z + t * d.z) * (m.z + t * d.z) == m.z * m.z + 2.0 * t * (d.z * m.z) + t * t * (d.z * d.z);
  }

  /** Along a unit direction, the squared distance to the centre minus r^2 is t^2 + 2bt + c. */
  lemma RayQuadratic(ray: Ray, s: Sphere, t: real)
    requires Norm2(ray.dir) == 1.0
    ensures Dist2(RayAt(ray, t), s.c) - s.r * s.r == t * t + 2.0 * SphereB(ray, s) * t + SphereC(ray, s)
  {
    var m := Sub(ray.p, s.c);
    assert Sub(RayAt(ray, t), s.c) == Add(m, Scale(t, ray.dir));
    Norm2AddScale(m, t, ray.dir);
  }

  /** The smaller root of t^2 + 2bt + c is a root. */
  lemma QuadraticAtRoot(b: real, c: real, sq: real, t: real)
    requires sq * sq == b * b - c && t == -b - sq
    ensures t * t + 2.0 * b * t + c == 0.0
  {
    assert t * t == b * b + 2.0 * b * sq + sq * sq;
  }

  /** The root is only clamped to 0 when c <= 0, i.e. when the origin is already inside. */
  lemma QuadraticClamped(b: real, c: real, sq: real)
    requires !(c > 0.0 && b > 0.0)
    requires sq >= 0.0 && sq * sq == b * b - c && -b - sq < 0.0
    ensures c <= 0.0
  {
    if b <= 0.0 {
      SquareLess(-b, sq);
    }
  }

  /** Before the smaller root, the quadratic is positive. */
  lemma QuadraticBeforeRoot(b: real, c: real, sq: real, u: real)
    requires sq >= 0.0 && sq * sq == b * b - c
    requires 0.0 <= u < -b - sq
    ensures u * u + 2.0 * b * u + c > 0.0
  {
    SquareLess(sq, -(u + b));
    assert (u + b) * (u + b) == u * u + 2.0 * b * u + b * b;
  }

  /** When the cast reports no hit, the quadratic is positive for every t >= 0. */
  lemma QuadraticMiss(b: real, c: real, u: real)
    requires (c > 0.0 && b > 0.0) || b * b - c < 0.0
    requires u >= 0.0
    ensures u * u + 2.0 * b * u + c > 0.0
  {
    SquareNonNegative(u);
    SquareNonNegative(u + b);
    assert (u + b) * (u + b) == u * u + 2.0 * b * u + b * b;
    if c > 0.0 && b > 0.0 {
      if u > 0.0 {
        PositiveProduct(b, u);
      }
    }
  }

  /** A hit's parameter t = max(-b - sqrt(b^2 - c), 0) makes t^2 + 2bt + c at most 0, and 0 when t > 0. */
  lemma QuadraticAtHit(b: real, c: real, sq: real, t: real)
    requires !(c > 0.0 && b > 0.0)
    requires sq >= 0.0 && sq * sq == b * b - c
    requires t == Max(-b - sq, 0.0)
    ensures t * t + 2.0 * b * t + c <= 0.0
    ensures t > 0.0 ==> t * t + 2.0 * b * t + c == 0.0
  {
    if -b - sq < 0.0 {
      QuadraticClamped(b, c, sq);
    } else {
      QuadraticAtRoot(b, c, sq, t);
    }
  }

  /** What a hit says about b, c and the discriminant. */
  lemma RaySphereSolved(ray: Ray, s: Sphere, sqrt: real -> real)
    requires RaySphere(ray, s, sqrt).Some?
    ensures !(SphereC(ray, s) > 0.0 && SphereB(ray, s) > 0.0)
    ensures SphereDiscr(ray, s) >= 0.0
    ensures RaySphere(ray, s, sqrt).value.t == Max(-SphereB(ray, s) - sqrt(SphereDiscr(ray, s)), 0.0)
  {
  }

  /**
    For a unit direction a hit lies in the closed ball: on the sphere when
    t > 0, and at an origin inside the sphere when the root was clamped to 0.
   */
  lemma RaySphereHitInBall(ray: Ray, s: Sphere, sqrt: real -> real)
    requires IsSqrt(sqrt) && Norm2(ray.dir) == 1.0
    requires RaySphere(ray, s, sqrt).Some?
    ensures Dist2(RaySphere(ray, s, sqrt).value.point, s.c) <= s.r * s.r
    ensures RaySphere(ray, s, sqrt).value.t > 0.0
        ==> Dist2(RaySphere(ray, s, sqrt).value.point, s.c) == s.r * s.r
  {
    var b := SphereB(ray, s);
    var c := SphereC(ray, s);
    var t := RaySphere(ray, s, sqrt).value.t;
    RaySphereSolved(ray, s, sqrt);
    SqrtFacts(sqrt, SphereDiscr(ray, s));
    QuadraticAtHit(b, c, sqrt(SphereDiscr(ray, s)), t);
    RayQuadratic(ray, s, t);
  }

  /** For a unit direction, no earlier point of the ray is in the ball: the hit is the first. */
  lemma RaySphereHitIsFirst(ray: Ray, s: Sphere, sqrt: real -> real, u: real)
    requires IsSqrt(sqrt) && Norm2(ray.dir) == 1.0
    requires RaySphere(ray, s, sqrt).Some?
    requires 0.0 <= u < RaySphere(ray, s, sqrt).value.t
    ensures Dist2(RayAt(ray, u), s.c) > s.r * s.r
  {
    var b := SphereB(ray, s);
    var c := SphereC(ray, s);
    RaySphereSolved(ray, s, sqrt);
    SqrtFacts(sqrt, SphereDiscr(ray, s));
    QuadraticBeforeRoot(b, c, sqrt(SphereDiscr(ray, s)), u);
    RayQuadratic(ray, s, u);
  }

  /** For a unit direction, a reported miss means no point of the ray is in the ball. */
  lemma RaySphereMiss(ray: Ray, s: Sphere, sqrt: real -> real, u: real)
    requires Norm2(ray.dir) == 1.0
    requires RaySphere(ray, s, sqrt).None?
    requires u >= 0.0
    ensures Dist2(RayAt(ray, u), s.c) > s.r * s.r
  {
    QuadraticMiss(SphereB(ray, s), SphereC(ray, s), u);
    RayQuadratic(ray, s, u);
  }

  // ---------------------------------------------------------------------
  // Ray x Plane
  // ---------------------------------------------------------------------

  /**
    `Cast<Plane> for Ray`: no hit for a direction parallel to the plane;
    otherwise the parameter where p + t dir satisfies the plane equation,
    when it is not behind the origin.
   */
  function RayPlane(ray: Ray, pl: Plane): (r: Option<Hit>)
    ensures r.Some? ==> r.value.t >= 0.0 && r.value.point == RayAt(ray, r.value.t)
  {
    var denom := Dot(ray.dir, pl.n);
    if denom == 0.0 then
      None
    else
      var t := (pl.d - Dot(ray.p, pl.n)) / denom;
      if t >= 0.0 then Some(Hit(RayAt(ray, t), t)) else None
  }

  /** The plane equation along the ray is affine in t. */
  lemma RayPlaneOffset(ray: Ray, pl: Plane, t: real)
    ensures Dot(RayAt(ray, t), pl.n) == Dot(ray.p, pl.n) + t * Dot(ray.dir, pl.n)
  {
    DotAddLeft(ray.p, Scale(t, ray.dir), pl.n);
    DotScaleLeft(t, ray.dir, pl.n);
    DotSymmetric(ray.dir, pl.n);
  }

  /** A hit lies on the plane. */
  lemma RayPlaneHitOnPlane(ray: Ray, pl: Plane)
    requires RayPlane(ray, pl).Some?
    ensures Dot(RayPlane(ray, pl).value.point, pl.n) == pl.d
  {
    var denom := Dot(ray.dir, pl.n);
    var t := (pl.d - Dot(ray.p, pl.n)) / denom;
    RayPlaneOffset(ray, pl, t);
    assert t * denom == pl.d - Dot(ray.p, pl.n);
  }

  /**
    The cast is complete for rays that cross the plane: when the direction is
    not parallel to it, a miss means no point of the ray lies on the plane,
    and a hit is the only such point.
   */
  lemma RayPlaneOnlyCrossing(ray: Ray, pl: Plane, u: real)
    requires Dot(ray.dir, pl.n) != 0.0
    requires u >= 0.0 && Dot(RayAt(ray, u), pl.n) == pl.d
    ensures RayPlane(ray, pl) == Some(Hit(RayAt(ray, u), u))
  {
    var denom := Dot(ray.dir, pl.n);
    RayPlaneOffset(ray, pl, u);
    assert u * denom == pl.d - Dot(ray.p, pl.n);
    assert u == (pl.d - Dot(ray.p, pl.n)) / denom;
  }

  /** A ray lying in the plane is reported as a miss although every point of it is on the plane. */
  lemma RayPlaneInPlaneMisses(ray: Ray, pl: Plane, u: real)
    requires Dot(ray.dir, pl.n) == 0.0 && Dot(ray.p, pl.n) == pl.d
    ensures RayPlane(ray, pl).None?
    ensures Dot(RayAt(ray, u), pl.n) == pl.d
  {
    RayPlaneOffset(ray, pl, u);
  }
}
