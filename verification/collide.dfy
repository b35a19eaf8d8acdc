/**
  The `Collide` implementations of the geometry kernel: whether a sphere
  touches another sphere, a plane or an axis-aligned box, and the
  displacement that separates them.
 */
module Collide {
  import opened Scalars
  import opened Vectors
  import opened Outcomes
  import opened Geom

  // ---------------------------------------------------------------------
  // Sphere x Sphere
  // ---------------------------------------------------------------------

  /** The sum of the radii: the centre distance at which two spheres meet. */
  function ReachOf(a: Sphere, b: Sphere): real {
    a.r + b.r
  }

  /** `touching`: the squared centre distance is at most the squared sum of the radii. */
  predicate SpheresTouching(a: Sphere, b: Sphere) {
    Dist2(b.c, a.c) <= ReachOf(a, b) * ReachOf(a, b)
  }

  /** Touching does not depend on the order of the two spheres. */
  lemma SpheresTouchingSymmetric(a: Sphere, b: Sphere)
    ensures SpheresTouching(a, b) <==> SpheresTouching(b, a)
  {
    Dist2Symmetric(a.c, b.c);
    assert ReachOf(a, b) == ReachOf(b, a);
  }

  /**
    `disp`: when the centre distance is below the sum of the radii, the
    offset from a's centre to b's, scaled to the overlap; coincident centres
    take the distance to be 1. The displacement is always parallel to the
    offset between the centres.
   */
  function SpheresDisp(a: Sphere, b: Sphere, sqrt: real -> real): (r: Option<Vec3>)
  {
    var offset := Sub(b.c, a.c);
    var distance := sqrt(Dist2(b.c, a.c));
    if distance < ReachOf(a, b) then
      var d := if distance == 0.0 then 1.0 else distance;
      Some(Scale((ReachOf(a, b) - d) / d, offset))
    else
      None
  }

  /** A displacement exists exactly when the radii are positive in sum and the spheres overlap. */
  lemma SpheresDispExists(a: Sphere, b: Sphere, sqrt: real -> real)
    requires IsSqrt(sqrt)
    ensures SpheresDisp(a, b, sqrt).Some?
        <==> ReachOf(a, b) > 0.0 && Dist2(b.c, a.c) < ReachOf(a, b) * ReachOf(a, b)
    ensures SpheresDisp(a, b, sqrt).Some? ==> SpheresTouching(a, b)
  {
    Norm2NonNegative(Sub(b.c, a.c));
    SqrtLess(sqrt, Dist2(b.c, a.c), ReachOf(a, b));
  }

  /** Coincident centres get the zero displacement (or none, when the radii sum to zero or less). */
  lemma SpheresDispCoincident(a: Sphere, b: Sphere, sqrt: real -> real)
    requires IsSqrt(sqrt)
    requires b.c == a.c
    ensures SpheresDisp(a, b, sqrt) == if ReachOf(a, b) > 0.0 then Some(Zero) else None
  {
    SqrtZero(sqrt, 0.0);
    if ReachOf(a, b) > 0.0 {
      CoincidentOverlap(a, b, sqrt);
      ScaleOfNoOffset((ReachOf(a, b) - 1.0) / 1.0, a.c, b.c);
    } else {
      CoincidentApart(a, b, sqrt);
    }
  }

  /** With coincident centres the distance is taken to be 1. */
  lemma CoincidentOverlap(a: Sphere, b: Sphere, sqrt: real -> real)
    requires sqrt(0.0) == 0.0
    requires b.c == a.c
    requires ReachOf(a, b) > 0.0
    ensures SpheresDisp(a, b, sqrt) == Some(Scale((ReachOf(a, b) - 1.0) / 1.0, Sub(b.c, a.c)))
  {
    Dist2Self(a.c);
  }

  lemma CoincidentApart(a: Sphere, b: Sphere, sqrt: real -> real)
    requires sqrt(0.0) == 0.0
    requires b.c == a.c
    requires ReachOf(a, b) <= 0.0
    ensures SpheresDisp(a, b, sqrt) == None
  {
    Dist2Self(a.c);
  }

  lemma ScaleOfNoOffset(k: real, a: Vec3, b: Vec3)
    requires b == a
    ensures Scale(k, Sub(b, a)) == Zero
  {
    assert Sub(b, a) == Zero;
  }

  /** Swapping the spheres reverses the displacement. */
  lemma SpheresDispAntisymmetric(a: Sphere, b: Sphere, sqrt: real -> real)
    ensures SpheresDisp(b, a, sqrt).Some? <==> SpheresDisp(a, b, sqrt).Some?
    ensures SpheresDisp(a, b, sqrt).Some? ==> SpheresDisp(b, a, sqrt).value == Neg(SpheresDisp(a, b, sqrt).value)
  {
    Dist2Symmetric(a.c, b.c);
    assert Sub(a.c, b.c) == Neg(Sub(b.c, a.c));
    assert ReachOf(a, b) == ReachOf(b, a);
    var d := sqrt(Dist2(b.c, a.c));
    var dd := if d == 0.0 then 1.0 else d;
    ScaleNeg((ReachOf(a, b) - dd) / dd, Sub(b.c, a.c));
  }

  lemma ScaleNeg(k: real, a: Vec3)
    ensures Scale(k, Neg(a)) == Neg(Scale(k, a))
  {
  }

  /**
    The overlap factor k = (R - d) / d for a centre distance 0 < d < R: it is
    positive, pushes an offset of length d to length R, and moves by R - d.
   */
  lemma PushFactor(reach: real, d: real, n2: real, k: real)
    requires 0.0 <= d < reach && d != 0.0 && d * d == n2 && k == (reach - d) / d
    ensures k * n2 == (reach - d) * d
    ensures (reach - d) * d > 0.0
    ensures (1.0 + k) * (1.0 + k) * n2 == reach * reach
    ensures k * k * n2 == (reach - d) * (reach - d)
  {
    assert k * d == reach - d;
    assert (1.0 + k) * d == reach;
    assert k * n2 == (k * d) * d;
    PositiveProduct(reach - d, d);
    assert (1.0 + k) * (1.0 + k) * (d * d) == ((1.0 + k) * d) * ((1.0 + k) * d);
    assert k * k * (d * d) == (k * d) * (k * d);
  }

  /** For centres apart, the distance d is positive and below the reach, and `disp` scales the offset by (R - d) / d. */
  lemma SpheresDispApart(a: Sphere, b: Sphere, sqrt: real -> real)
    requires IsSqrt(sqrt)
    requires SpheresDisp(a, b, sqrt).Some?
    requires Dist2(b.c, a.c) != 0.0
    ensures var d := sqrt(Dist2(b.c, a.c));
            0.0 <= d < ReachOf(a, b) && d != 0.0 && d * d == Dist2(b.c, a.c)
            && SpheresDisp(a, b, sqrt) == Some(Scale((ReachOf(a, b) - d) / d, Sub(b.c, a.c)))
  {
    Norm2NonNegative(Sub(b.c, a.c));
    SqrtZero(sqrt, Dist2(b.c, a.c));
  }

  /**
    For overlapping spheres whose centres are apart, `disp` points from a's
    centre towards b's and is as long as the overlap R - d.
   */
  lemma SpheresDispDirection(a: Sphere, b: Sphere, sqrt: real -> real)
    requires IsSqrt(sqrt)
    requires SpheresDisp(a, b, sqrt).Some?
    requires Dist2(b.c, a.c) != 0.0
    ensures Cross(SpheresDisp(a, b, sqrt).value, Sub(b.c, a.c)) == Zero
    ensures Dot(SpheresDisp(a, b, sqrt).value, Sub(b.c, a.c))
      == (ReachOf(a, b) - sqrt(Dist2(b.c, a.c))) * sqrt(Dist2(b.c, a.c))
    ensures Dot(SpheresDisp(a, b, sqrt).value, Sub(b.c, a.c)) > 0.0
    ensures Norm2(SpheresDisp(a, b, sqrt).value)
      == (ReachOf(a, b) - sqrt(Dist2(b.c, a.c))) * (ReachOf(a, b) - sqrt(Dist2(b.c, a.c)))
  {
    SpheresDispApart(a, b, sqrt);
    var o := Sub(b.c, a.c);
    var d := sqrt(Dist2(b.c, a.c));
    var k := (ReachOf(a, b) - d) / d;
    PushFactor(ReachOf(a, b), d, Dist2(b.c, a.c), k);
    CrossParallel(k, o);
    DotScaleLeft(k, o, o);
    Norm2Scale(k, o);
  }

  /** Spheres whose centres are exactly the reach apart touch and get no displacement. */
  lemma SpheresDispAtReach(a: Sphere, b: Sphere, sqrt: real -> real)
    requires IsSqrt(sqrt)
    requires ReachOf(a, b) >= 0.0
    requires Dist2(b.c, a.c) == ReachOf(a, b) * ReachOf(a, b)
    ensures SpheresTouching(a, b)
    ensures SpheresDisp(a, b, sqrt).None?
  {
    SqrtOf(sqrt, Dist2(b.c, a.c), ReachOf(a, b));
  }

  /** Pushing b's centre by k times the offset from a makes the offset (1 + k) times as long. */
  lemma PushedOffset(p: Pos3, q: Pos3, k: real)
    ensures Sub(Add(p, Scale(k, Sub(p, q))), q) == Scale(1.0 + k, Sub(p, q))
  {
  }

  /**
    Moving b by `disp` leaves the spheres exactly tangent: their centres are
    the reach apart, they still touch, and there is no further displacement.
   */
  lemma SpheresDispSeparates(a: Sphere, b: Sphere, sqrt: real -> real)
    requires IsSqrt(sqrt)
    requires SpheresDisp(a, b, sqrt).Some?
    requires Dist2(b.c, a.c) != 0.0
    ensures Dist2(Add(b.c, SpheresDisp(a, b, sqrt).value), a.c) == ReachOf(a, b) * ReachOf(a, b)
    ensures SpheresTouching(a, b.(c := Add(b.c, SpheresDisp(a, b, sqrt).value)))
    ensures SpheresDisp(a, b.(c := Add(b.c, SpheresDisp(a, b, sqrt).value)), sqrt).None?
  {
    SpheresDispApart(a, b, sqrt);
    var o := Sub(b.c, a.c);
    var d := sqrt(Dist2(b.c, a.c));
    var k := (ReachOf(a, b) - d) / d;
    PushFactor(ReachOf(a, b), d, Dist2(b.c, a.c), k);
    PushedOffset(b.c, a.c, k);
    Norm2Scale(1.0 + k, o);
    var b' := b.(c := Add(b.c, Scale(k, o)));
    assert Dist2(b'.c, a.c) == ReachOf(a, b') * ReachOf(a, b');
    SpheresDispAtReach(a, b', sqrt);
  }

  // ---------------------------------------------------------------------
  // Sphere x Plane
  // ---------------------------------------------------------------------

  /** The signed distance of the sphere's centre from the plane, c . n - d (for a unit normal). */
  function PlaneDistance(s: Sphere, p: Plane): real {
    Dot(s.c, p.n) - p.d
  }

  /** `touching`: the centre lies within one radius of the plane. */
  predicate SpherePlaneTouching(s: Sphere, p: Plane) {
    Abs(PlaneDistance(s, p)) <= s.r
  }

  /**
    `disp`: when touching, the normal scaled by the radius minus the signed
    distance, i.e. the push that puts the centre one radius above the plane.
   */
  function SpherePlaneDisp(s: Sphere, p: Plane): (r: Option<Vec3>)
    ensures r.Some? ==> Cross(r.value, p.n) == Zero
  {
    var dist := PlaneDistance(s, p);
    if Abs(dist) <= s.r then
      CrossParallel(s.r - dist, p.n);
      Some(Scale(s.r - dist, p.n))
    else
      None
  }

  /** A sphere of negative radius never touches a plane; one of radius zero only when its centre lies on it. */
  lemma SpherePlaneDispExists(s: Sphere, p: Plane)
    ensures SpherePlaneDisp(s, p).Some? <==> SpherePlaneTouching(s, p)
    ensures SpherePlaneTouching(s, p) <==> -s.r <= PlaneDistance(s, p) <= s.r
    ensures s.r < 0.0 ==> SpherePlaneDisp(s, p).None?
  {
  }

  /**
    For a unit normal, moving the sphere by `disp` rests it exactly one radius
    above the plane: it is still touching and the next displacement is the
    zero vector, so resolving the contact twice changes nothing.
   */
  lemma SpherePlaneResolves(s: Sphere, p: Plane)
    requires Norm2(p.n) == 1.0
    requires SpherePlaneDisp(s, p).Some?
    ensures PlaneDistance(s.(c := Add(s.c, SpherePlaneDisp(s, p).value)), p) == s.r
    ensures SpherePlaneDisp(s.(c := Add(s.c, SpherePlaneDisp(s, p).value)), p) == Some(Zero)
  {
    var v := SpherePlaneDisp(s, p).value;
    DotAddLeft(s.c, v, p.n);
    DotScaleLeft(s.r - PlaneDistance(s, p), p.n, p.n);
  }

  // ---------------------------------------------------------------------
  // Sphere x AABB
  // ---------------------------------------------------------------------

  /** The point of the box [c - h, c + h] nearest to q, coordinate by coordinate. */
  function ClosestPoint(q: Pos3, c: Pos3, h: Vec3): (r: Pos3)
    ensures h.x >= 0.0 && h.y >= 0.0 && h.z >= 0.0 ==> InBox(r, c, h)
    ensures InBox(q, c, h) ==> r == q
  {
    Vec3(Max(c.x - h.x, Min(q.x, c.x + h.x)),
         Max(c.y - h.y, Min(q.y, c.y + h.y)),
         Max(c.z - h.z, Min(q.z, c.z + h.z)))
  }

  /**
    `touching`: the distance from the centre to the nearest point of the box
    is strictly less than the radius.
   */
  function SphereAABBTouching(s: Sphere, b: AABB, sqrt: real -> real): bool {
    sqrt(Dist2(ClosestPoint(s.c, b.c, b.halfSizes), s.c)) < s.r
  }

  /** Touching, stated without square roots. */
  lemma SphereAABBTouchingSquared(s: Sphere, b: AABB, sqrt: real -> real)
    requires IsSqrt(sqrt)
    ensures SphereAABBTouching(s, b, sqrt)
        <==> s.r > 0.0 && Dist2(ClosestPoint(s.c, b.c, b.halfSizes), s.c) < s.r * s.r
  {
    var cp := ClosestPoint(s.c, b.c, b.halfSizes);
    Norm2NonNegative(Sub(cp, s.c));
    SqrtLess(sqrt, Dist2(cp, s.c), s.r);
  }

  /** A sphere of positive radius whose centre lies in the box touches it. */
  lemma CentreInBoxTouches(s: Sphere, b: AABB, sqrt: real -> real)
    requires IsSqrt(sqrt)
    requires s.r > 0.0
    requires InBox(s.c, b.c, b.halfSizes)
    ensures SphereAABBTouching(s, b, sqrt)
  {
    assert ClosestPoint(s.c, b.c, b.halfSizes) == s.c;
    assert Dist2(s.c, s.c) == 0.0;
    SqrtZero(sqrt, 0.0);
  }

  /** On one axis, the clamp m of q into [lo, hi] comes no further from q than any point of [lo, hi]. */
  lemma ClampIsNearest(q: real, lo: real, hi: real, m: real, y: real)
    requires m == Max(lo, Min(q, hi))
    requires lo <= y <= hi
    ensures (m - q) * (m - q) <= (y - q) * (y - q)
  {
    if q < lo {
      if lo - q < y - q {
        SquareLess(lo - q, y - q);
      }
    } else if q > hi {
      NegSquare(m - q);
      NegSquare(y - q);
      if q - hi < q - y {
        SquareLess(q - hi, q - y);
      }
    } else {
      SquareNonNegative(y - q);
    }
  }

  /** A point no further from q on any axis is no further from q. */
  lemma Dist2AxisBounds(m: Pos3, y: Pos3, q: Pos3)
    requires (m.x - q.x) * (m.x - q.x) <= (y.x - q.x) * (y.x - q.x)
    requires (m.y - q.y) * (m.y - q.y) <= (y.y - q.y) * (y.y - q.y)
    requires (m.z - q.z) * (m.z - q.z) <= (y.z - q.z) * (y.z - q.z)
    ensures Dist2(m, q) <= Dist2(y, q)
  {
  }

  /** `ClosestPoint` is nearest: no point of the box is closer to q. */
  lemma ClosestIsNearest(q: Pos3, c: Pos3, h: Vec3, y: Pos3)
    requires InBox(y, c, h)
    ensures Dist2(ClosestPoint(q, c, h), q) <= Dist2(y, q)
  {
    var m := ClosestPoint(q, c, h);
    ClampIsNearest(q.x, c.x - h.x, c.x + h.x, m.x, y.x);
    ClampIsNearest(q.y, c.y - h.y, c.y + h.y, m.y, y.y);
    ClampIsNearest(q.z, c.z - h.z, c.z + h.z, m.z, y.z);
    Dist2AxisBounds(m, y, q);
  }

  /**
    `touching` holds exactly when some point of the box lies strictly within
    one radius of the centre.
   */
  lemma SphereAABBTouchingMeaning(s: Sphere, b: AABB, sqrt: real -> real)
    requires IsSqrt(sqrt)
    requires b.halfSizes.x >= 0.0 && b.halfSizes.y >= 0.0 && b.halfSizes.z >= 0.0
    ensures SphereAABBTouching(s, b, sqrt)
        <==> s.r > 0.0 && exists y :: InBox(y, b.c, b.halfSizes) && Dist2(y, s.c) < s.r * s.r
  {
    var cp := ClosestPoint(s.c, b.c, b.halfSizes);
    SphereAABBTouchingSquared(s, b, sqrt);
    if s.r > 0.0 && exists y :: InBox(y, b.c, b.halfSizes) && Dist2(y, s.c) < s.r * s.r {
      var y :| InBox(y, b.c, b.halfSizes) && Dist2(y, s.c) < s.r * s.r;
      ClosestIsNearest(s.c, b.c, b.halfSizes, y);
    }
    if SphereAABBTouching(s, b, sqrt) {
      assert InBox(cp, b.c, b.halfSizes) && Dist2(cp, s.c) < s.r * s.r;
    }
  }

  /**
    `disp`: computes the nearest point of the box with doubled extents and
    its distance, but returns `None` on both branches.
   */
  function SphereAABBDisp(s: Sphere, b: AABB, sqrt: real -> real): (r: Option<Vec3>)
    ensures r.None?
  {
    var cp := ClosestPoint(s.c, b.c, Scale(2.0, b.halfSizes));
    var distance := sqrt(Dist2(cp, s.c));
    if distance < s.r then None else None
  }

  /**
    The sphere-box pair breaks the `Collide` contract that `touching` is
    `disp(..).is_some()`: a unit sphere at the centre of a unit box touches it
    and still gets no displacement.
   */
  lemma SphereAABBTouchingWithoutDisp(sqrt: real -> real)
    requires IsSqrt(sqrt)
    ensures var s := Sphere(Zero, 1.0, Zero, Zero, 1.0);
            var b := AABB(Zero, Vec3(1.0, 1.0, 1.0));
            SphereAABBTouching(s, b, sqrt) && SphereAABBDisp(s, b, sqrt).None?
  {
    var s := Sphere(Zero, 1.0, Zero, Zero, 1.0);
    var b := AABB(Zero, Vec3(1.0, 1.0, 1.0));
    CentreInBoxTouches(s, b, sqrt);
  }
}
