/**
  The slab casts of the geometry kernel, `Cast<Box> for Ray` and
  `Cast<AABB> for Ray`. Each axis of the box contributes a slab: the range
  of ray parameters for which the ray is between the two faces across that
  axis. The cast keeps the running intersection [tmin, tmax] of
  [0, f32::MAX] with the slabs and reports the ray point at tmin, giving up
  as soon as the intersection is empty.
 */
module Slabs {
  import opened Scalars
  import opened Vectors
  import opened Outcomes
  import opened Geom
  import opened Cast

  /**
    What one axis contributes: `Reject` ends the cast with no hit, `Free`
    leaves the interval alone, `Span(lo, hi)` intersects it with [lo, hi].
   */
  datatype Slab = Reject | Free | Span(lo: real, hi: real)

  /** The running `tmin` after the given slabs: 0 raised to every lower end. */
  function Lower(s: seq<Slab>): real {
    if |s| == 0 then 0.0
    else
      var l := Lower(s[..|s| - 1]);
      match s[|s| - 1]
      case Span(lo, _) => Max(l, lo)
      case _ => l
  }

  /** The running `tmax` after the given slabs: f32::MAX lowered to every upper end. */
  function Upper(s: seq<Slab>): real {
    if |s| == 0 then F32_MAX
    else
      var u := Upper(s[..|s| - 1]);
      match s[|s| - 1]
      case Span(_, hi) => Min(u, hi)
      case _ => u
  }

  predicate Rejects(s: seq<Slab>) {
    exists k :: 0 <= k < |s| && s[k].Reject?
  }

  /** The span between two parameters, swapped into order when the first is larger. */
  function SpanOf(t1: real, t2: real): Slab {
    if t1 > t2 then Span(t2, t1) else Span(t1, t2)
  }

  /**
    The outcome of the whole sweep in closed form: no hit when an axis
    rejects or the slabs do not meet within [0, f32::MAX], otherwise the
    smallest parameter they share.
   */
  function Clip(s: seq<Slab>): Option<real> {
    if Rejects(s) || Lower(s) > Upper(s) then None else Some(Lower(s))
  }

  /** The ray point at a clipped parameter, as `CastHit`. */
  function HitAt(ray: Ray, t: Option<real>): (r: Option<Hit>)
    ensures r.Some? <==> t.Some?
    ensures r.Some? ==> r.value == Hit(RayAt(ray, t.value), t.value)
  {
    match t
    case None => None
    case Some(t) => Some(Hit(RayAt(ray, t), t))
  }

  // ---------------------------------------------------------------------
  // The running interval
  // ---------------------------------------------------------------------

  lemma PrefixOfPrefix(s: seq<Slab>, i: nat)
    requires i < |s|
    ensures s[..i + 1][..i] == s[..i]
    ensures s[..i + 1][i] == s[i]
  {
  }

  /** `tmin` never decreases along the sweep. */
  lemma {:induction false} LowerGrows(s: seq<Slab>, i: nat, j: nat)
    requires i <= j <= |s|
    ensures Lower(s[..i]) <= Lower(s[..j])
    decreases j - i
  {
    if i < j {
      LowerGrows(s, i, j - 1);
      PrefixOfPrefix(s, j - 1);
    }
  }

  /** `tmax` never increases along the sweep. */
  lemma {:induction false} UpperShrinks(s: seq<Slab>, i: nat, j: nat)
    requires i <= j <= |s|
    ensures Upper(s[..j]) <= Upper(s[..i])
    decreases j - i
  {
    if i < j {
      UpperShrinks(s, i, j - 1);
      PrefixOfPrefix(s, j - 1);
    }
  }

  /** `tmin` is at least 0 and every lower end. */
  lemma {:induction false} LowerIsBound(s: seq<Slab>)
    ensures Lower(s) >= 0.0
    ensures forall k :: 0 <= k < |s| && s[k].Span? ==> s[k].lo <= Lower(s)
  {
    if |s| > 0 {
      var init := s[..|s| - 1];
      LowerIsBound(init);
      assert forall k :: 0 <= k < |init| ==> s[k] == init[k];
    }
  }

  /** `tmax` is at most f32::MAX and every upper end. */
  lemma {:induction false} UpperIsBound(s: seq<Slab>)
    ensures Upper(s) <= F32_MAX
    ensures forall k :: 0 <= k < |s| && s[k].Span? ==> Upper(s) <= s[k].hi
  {
    if |s| > 0 {
      var init := s[..|s| - 1];
      UpperIsBound(init);
      assert forall k :: 0 <= k < |init| ==> s[k] == init[k];
    }
  }

  /** A parameter in [0, f32::MAX] above every lower end is at least `tmin`. */
  lemma {:induction false} LowerIsLeast(s: seq<Slab>, t: real)
    requires t >= 0.0
    requires forall k :: 0 <= k < |s| && s[k].Span? ==> s[k].lo <= t
    ensures Lower(s) <= t
  {
    if |s| > 0 {
      var init := s[..|s| - 1];
      assert forall k :: 0 <= k < |init| ==> init[k] == s[k];
      LowerIsLeast(init, t);
    }
  }

  /** A parameter in [0, f32::MAX] below every upper end is at most `tmax`. */
  lemma {:induction false} UpperIsGreatest(s: seq<Slab>, t: real)
    requires t <= F32_MAX
    requires forall k :: 0 <= k < |s| && s[k].Span? ==> t <= s[k].hi
    ensures t <= Upper(s)
  {
    if |s| > 0 {
      var init := s[..|s| - 1];
      assert forall k :: 0 <= k < |init| ==> init[k] == s[k];
      UpperIsGreatest(init, t);
    }
  }

  /** A parameter lies in every slab: in every span and on no rejecting axis. */
  predicate InAllSlabs(s: seq<Slab>, t: real) {
    0.0 <= t <= F32_MAX && forall k :: 0 <= k < |s| ==> InSlab(s[k], t)
  }

  predicate InSlab(x: Slab, t: real) {
    match x
    case Reject => false
    case Free => true
    case Span(lo, hi) => lo <= t <= hi
  }

  /** A clipped parameter lies in every slab. */
  lemma ClipSound(s: seq<Slab>)
    requires Clip(s).Some?
    ensures InAllSlabs(s, Clip(s).value)
  {
    LowerIsBound(s);
    UpperIsBound(s);
  }

  /** When the slabs share a parameter, the clip finds one, and it is the least. */
  lemma ClipComplete(s: seq<Slab>, t: real)
    requires InAllSlabs(s, t)
    ensures Clip(s).Some? && Clip(s).value <= t
  {
    assert forall k :: 0 <= k < |s| ==> InSlab(s[k], t);
    LowerIsLeast(s, t);
    UpperIsGreatest(s, t);
  }

  /** A rejection among the first i + 1 slabs is a rejection of all of them. */
  lemma RejectsPrefix(s: seq<Slab>, i: nat)
    requires i <= |s| && Rejects(s[..i])
    ensures Rejects(s)
  {
    var k :| 0 <= k < i && s[..i][k].Reject?;
    assert s[k].Reject?;
  }

  /** Emptiness of the running interval at any point of the sweep makes the clip empty. */
  lemma EmptyEarly(s: seq<Slab>, i: nat)
    requires i <= |s| && Lower(s[..i]) > Upper(s[..i])
    ensures Clip(s).None?
  {
    LowerGrows(s, i, |s|);
    UpperShrinks(s, i, |s|);
    assert s[..|s|] == s;
  }

  /** One step of the sweep. */
  lemma SweepStep(s: seq<Slab>, i: nat)
    requires i < |s|
    ensures Lower(s[..i + 1]) == (if s[i].Span? then Max(Lower(s[..i]), s[i].lo) else Lower(s[..i]))
    ensures Upper(s[..i + 1]) == (if s[i].Span? then Min(Upper(s[..i]), s[i].hi) else Upper(s[..i]))
    ensures Rejects(s[..i + 1]) <==> Rejects(s[..i]) || s[i].Reject?
  {
    PrefixOfPrefix(s, i);
    if Rejects(s[..i + 1]) && !s[i].Reject? {
      var k :| 0 <= k < i + 1 && s[..i + 1][k].Reject?;
      assert s[..i][k].Reject?;
    }
    if Rejects(s[..i]) {
      var k :| 0 <= k < i && s[..i][k].Reject?;
      assert s[..i + 1][k].Reject?;
    }
    if s[i].Reject? {
      assert s[..i + 1][i].Reject?;
    }
  }

  // ---------------------------------------------------------------------
  // Ray x Box
  // ---------------------------------------------------------------------

  /**
    The slab of axis i of an oriented box: e = axis . (c - p) and
    f = dir . axis; a direction within f32::EPSILON of parallel rejects when
    the origin is outside the slab and otherwise divides by f32::EPSILON.
   */
  function BoxSlab(ray: Ray, b: Box, i: nat): Slab
    requires i < 3
  {
    var axis := Col(b.axes, i);
    var e := Dot(axis, Sub(b.c, ray.p));
    var f := Dot(ray.dir, axis);
    var h := Get(b.halfSizes, i);
    if Abs(f) < EPSILON && (-e - h > 0.0 || -e + h < 0.0) then
      Reject
    else
      var f' := if Abs(f) < EPSILON then EPSILON else f;
      var t1 := (e + h) / f';
      var t2 := (e - h) / f';
      SpanOf(t1, t2)
  }

  function BoxSlabs(ray: Ray, b: Box): (s: seq<Slab>)
    ensures |s| == 3
  {
    [BoxSlab(ray, b, 0), BoxSlab(ray, b, 1), BoxSlab(ray, b, 2)]
  }

  /** `Cast<Box> for Ray`: the slab sweep over the three axes of the box. */
  method RayBox(ray: Ray, b: Box) returns (r: Option<Hit>)
    ensures r == HitAt(ray, Clip(BoxSlabs(ray, b)))
  {
    var s := BoxSlabs(ray, b);
    var tmin := 0.0;
    var tmax := F32_MAX;
    var delta := Sub(b.c, ray.p);
    for i := 0 to 3
      invariant tmin == Lower(s[..i]) && tmax == Upper(s[..i])
      invariant !Rejects(s[..i]) && tmin <= tmax
    {
      SweepStep(s, i);
      var axis := Col(b.axes, i);
      var e := Dot(axis, delta);
      var f := Dot(ray.dir, axis);
      var h := Get(b.halfSizes, i);
      if Abs(f) < EPSILON {
        if -e - h > 0.0 || -e + h < 0.0 {
          assert s[i] == Reject;
          RejectsPrefix(s, i + 1);
          return None;
        }
        f := EPSILON;
      }
      var t1 := (e + h) / f;
      var t2 := (e - h) / f;
      if t1 > t2 {
        t1, t2 := t2, t1;
      }
      assert s[i] == Span(t1, t2);
      tmin := Max(tmin, t1);
      tmax := Min(tmax, t2);
      if tmin > tmax {
        EmptyEarly(s, i + 1);
        return None;
      }
    }
    assert s[..3] == s;
    return Some(Hit(RayAt(ray, tmin), tmin));
  }

  // ---------------------------------------------------------------------
  // Ray x AABB
  // ---------------------------------------------------------------------

  /** The faces of an axis-aligned box along axis i: c - h and c + h. */
  function MinCorner(b: AABB): Pos3 {
    Sub(b.c, b.halfSizes)
  }

  function MaxCorner(b: AABB): Pos3 {
    Add(b.c, b.halfSizes)
  }

  /**
    The slab of axis i of an axis-aligned box as the source computes it: a
    direction component within f32::EPSILON of zero rejects only when the
    origin is below the lower face, and otherwise leaves the interval alone.
   */
  function AabbSlab(ray: Ray, b: AABB, i: nat): Slab
    requires i < 3
  {
    var d := Get(ray.dir, i);
    var p := Get(ray.p, i);
    if Abs(d) < EPSILON then
      if p < Get(MinCorner(b), i) then Reject else Free
    else
      AabbSpan(ray, b, i)
  }

  /** The same slab with the upper face checked too: a parallel ray outside either face rejects. */
  function AabbSlabChecked(ray: Ray, b: AABB, i: nat): Slab
    requires i < 3
  {
    var d := Get(ray.dir, i);
    var p := Get(ray.p, i);
    if Abs(d) < EPSILON then
      if p < Get(MinCorner(b), i) || p > Get(MaxCorner(b), i) then Reject else Free
    else
      AabbSpan(ray, b, i)
  }

  /** The span of a non-parallel axis: (face - p) * (1 / d) for both faces, ordered. */
  function AabbSpan(ray: Ray, b: AABB, i: nat): Slab
    requires i < 3 && Abs(Get(ray.dir, i)) >= EPSILON
  {
    var t1 := FaceParam(Get(MinCorner(b), i), Get(ray.p, i), Get(ray.dir, i));
    var t2 := FaceParam(Get(MaxCorner(b), i), Get(ray.p, i), Get(ray.dir, i));
    SpanOf(t1, t2)
  }

  /** The parameter (face - p) * (1 / d) at which a coordinate moving at rate d from p reaches the face. */
  function FaceParam(face: real, p: real, d: real): real
    requires d != 0.0
  {
    (face - p) * (1.0 / d)
  }

  function AabbSlabs(ray: Ray, b: AABB): (s: seq<Slab>)
    ensures |s| == 3
  {
    [AabbSlab(ray, b, 0), AabbSlab(ray, b, 1), AabbSlab(ray, b, 2)]
  }

  function AabbSlabsChecked(ray: Ray, b: AABB): (s: seq<Slab>)
    ensures |s| == 3
  {
    [AabbSlabChecked(ray, b, 0), AabbSlabChecked(ray, b, 1), AabbSlabChecked(ray, b, 2)]
  }

  /** `Cast<AABB> for Ray` as written: the slab sweep over x, y and z. */
  method RayAabb(ray: Ray, b: AABB) returns (r: Option<Hit>)
    ensures r == HitAt(ray, Clip(AabbSlabs(ray, b)))
  {
    var s := AabbSlabs(ray, b);
    var tmin := 0.0;
    var tmax := F32_MAX;
    var min := MinCorner(b);
    var max := MaxCorner(b);
    for i := 0 to 3
      invariant tmin == Lower(s[..i]) && tmax == Upper(s[..i])
      invariant !Rejects(s[..i]) && tmin <= tmax
    {
      SweepStep(s, i);
      if Abs(Get(ray.dir, i)) < EPSILON {
        if Get(ray.p, i) < Get(min, i) {
          assert s[i] == Reject;
          RejectsPrefix(s, i + 1);
          return None;
        }
        assert s[i] == Free;
        continue;
      }
      var t1 := FaceParam(Get(min, i), Get(ray.p, i), Get(ray.dir, i));
      var t2 := FaceParam(Get(max, i), Get(ray.p, i), Get(ray.dir, i));
      if t1 > t2 {
        t1, t2 := t2, t1;
      }
      assert s[i] == Span(t1, t2);
      tmin := Max(tmin, t1);
      tmax := Min(tmax, t2);
      if tmin > tmax {
        EmptyEarly(s, i + 1);
        return None;
      }
    }
    assert s[..3] == s;
    return Some(Hit(RayAt(ray, tmin), tmin));
  }

  /** The cast with the upper face checked on parallel axes. */
  method RayAabbChecked(ray: Ray, b: AABB) returns (r: Option<Hit>)
    ensures r == HitAt(ray, Clip(AabbSlabsChecked(ray, b)))
  {
    var s := AabbSlabsChecked(ray, b);
    var tmin := 0.0;
    var tmax := F32_MAX;
    var min := MinCorner(b);
    var max := MaxCorner(b);
    for i := 0 to 3
      invariant tmin == Lower(s[..i]) && tmax == Upper(s[..i])
      invariant !Rejects(s[..i]) && tmin <= tmax
    {
      SweepStep(s, i);
      if Abs(Get(ray.dir, i)) < EPSILON {
        if Get(ray.p, i) < Get(min, i) || Get(ray.p, i) > Get(max, i) {
          assert s[i] == Reject;
          RejectsPrefix(s, i + 1);
          return None;
        }
        assert s[i] == Free;
        continue;
      }
      var t1 := FaceParam(Get(min, i), Get(ray.p, i), Get(ray.dir, i));
      var t2 := FaceParam(Get(max, i), Get(ray.p, i), Get(ray.dir, i));
      if t1 > t2 {
        t1, t2 := t2, t1;
      }
      assert s[i] == Span(t1, t2);
      tmin := Max(tmin, t1);
      tmax := Min(tmax, t2);
      if tmin > tmax {
        EmptyEarly(s, i + 1);
        return None;
      }
    }
    assert s[..3] == s;
    return Some(Hit(RayAt(ray, tmin), tmin));
  }

  // ---------------------------------------------------------------------
  // What the slabs mean
  // ---------------------------------------------------------------------

  /** Dividing the bounds of a <= t f <= b by f brackets t, in either order of the quotients. */
  lemma DivideBounds(a: real, b: real, f: real, t: real)
    requires f != 0.0 && a <= b
    ensures Min(a / f, b / f) <= t <= Max(a / f, b / f) <==> a <= t * f <= b
  {
    assert (a / f) * f == a;
    assert (b / f) * f == b;
    assert t * f - a == (t - a / f) * f;
    assert b - t * f == (b / f - t) * f;
    assert b - a == (b / f - a / f) * f;
    if f > 0.0 {
      SignOfProduct(t - a / f, f);
      SignOfProduct(b / f - t, f);
      SignOfProduct(b / f - a / f, f);
    } else {
      assert t * f - a == (a / f - t) * -f;
      assert b - t * f == (t - b / f) * -f;
      assert b - a == (a / f - b / f) * -f;
      SignOfProduct(a / f - t, -f);
      SignOfProduct(t - b / f, -f);
      SignOfProduct(a / f - b / f, -f);
    }
  }

  /** The ordered span of two parameters contains t exactly when t lies between them. */
  lemma OrderedSpan(t1: real, t2: real, t: real)
    ensures InSlab(SpanOf(t1, t2), t)
        <==> Min(t1, t2) <= t <= Max(t1, t2)
  {
  }

  /** A direction component is resolved when it is exactly zero or at least f32::EPSILON in size. */
  predicate Resolved(f: real) {
    f == 0.0 || Abs(f) >= EPSILON
  }

  /** Coordinate i of the ray point at t. */
  lemma RayAtCoordinate(ray: Ray, t: real, i: nat)
    requires i < 3
    ensures Get(RayAt(ray, t), i) == Get(ray.p, i) + t * Get(ray.dir, i)
  {
  }

  /** The ray's coordinate along a box axis, measured from the centre, is t f - e. */
  lemma RayAlongAxis(ray: Ray, b: Box, i: nat, t: real)
    requires i < 3
    ensures Dot(Sub(RayAt(ray, t), b.c), Col(b.axes, i))
        == t * Dot(ray.dir, Col(b.axes, i)) - Dot(Col(b.axes, i), Sub(b.c, ray.p))
  {
    var axis := Col(b.axes, i);
    assert Sub(RayAt(ray, t), b.c) == Add(Sub(ray.p, b.c), Scale(t, ray.dir));
    DotAddLeft(Sub(ray.p, b.c), Scale(t, ray.dir), axis);
    DotScaleLeft(t, ray.dir, axis);
    DotSymmetric(axis, Sub(b.c, ray.p));
  }

  /** The point q lies between the two faces of the box across axis i. */
  predicate BetweenFaces(q: Pos3, b: Box, i: nat)
    requires i < 3
  {
    var h := Get(b.halfSizes, i);
    -h <= Dot(Sub(q, b.c), Col(b.axes, i)) <= h
  }

  /**
    A parameter in the slab of a resolved box axis puts the ray between the
    two faces across that axis. (For an axis within f32::EPSILON of parallel
    but not exactly parallel, the origin test and the division by
    f32::EPSILON do not give this.)
   */
  lemma BoxSlabSound(ray: Ray, b: Box, i: nat, t: real)
    requires i < 3 && Get(b.halfSizes, i) >= 0.0
    requires Resolved(Dot(ray.dir, Col(b.axes, i)))
    requires InSlab(BoxSlab(ray, b, i), t)
    ensures BetweenFaces(RayAt(ray, t), b, i)
  {
    var axis := Col(b.axes, i);
    var e := Dot(axis, Sub(b.c, ray.p));
    var f := Dot(ray.dir, axis);
    var h := Get(b.halfSizes, i);
    RayAlongAxis(ray, b, i, t);
    if f != 0.0 {
      OrderedSpan((e + h) / f, (e - h) / f, t);
      DivideBounds(e - h, e + h, f, t);
    }
  }

  /** Conversely, on an axis at least f32::EPSILON from parallel, being between the faces puts t in the slab. */
  lemma BoxSlabComplete(ray: Ray, b: Box, i: nat, t: real)
    requires i < 3
    requires Abs(Dot(ray.dir, Col(b.axes, i))) >= EPSILON
    requires BetweenFaces(RayAt(ray, t), b, i)
    ensures InSlab(BoxSlab(ray, b, i), t)
  {
    var axis := Col(b.axes, i);
    var e := Dot(axis, Sub(b.c, ray.p));
    var f := Dot(ray.dir, axis);
    var h := Get(b.halfSizes, i);
    RayAlongAxis(ray, b, i, t);
    OrderedSpan((e + h) / f, (e - h) / f, t);
    DivideBounds(e - h, e + h, f, t);
  }

  /** The hit of `RayBox` lies between the faces across every resolved axis. */
  lemma RayBoxHitInside(ray: Ray, b: Box, i: nat)
    requires i < 3 && Get(b.halfSizes, i) >= 0.0
    requires Resolved(Dot(ray.dir, Col(b.axes, i)))
    requires Clip(BoxSlabs(ray, b)).Some?
    ensures BetweenFaces(RayAt(ray, Clip(BoxSlabs(ray, b)).value), b, i)
  {
    var s := BoxSlabs(ray, b);
    ClipSound(s);
    assert InSlab(s[i], Clip(s).value);
    BoxSlabSound(ray, b, i, Clip(s).value);
  }

  /**
    When no axis is within f32::EPSILON of parallel to the ray, any ray
    point inside the box with t in [0, f32::MAX] is matched by a hit at or
    before it: the cast reports the first entry.
   */
  lemma RayBoxHitIsFirst(ray: Ray, b: Box, t: real)
    requires forall i :: 0 <= i < 3 ==> Abs(Dot(ray.dir, Col(b.axes, i))) >= EPSILON
    requires forall i :: 0 <= i < 3 ==> BetweenFaces(RayAt(ray, t), b, i)
    requires 0.0 <= t <= F32_MAX
    ensures Clip(BoxSlabs(ray, b)).Some? && Clip(BoxSlabs(ray, b)).value <= t
  {
    var s := BoxSlabs(ray, b);
    forall k | 0 <= k < 3
      ensures InSlab(s[k], t)
    {
      BoxSlabComplete(ray, b, k, t);
    }
    ClipComplete(s, t);
  }

  /** (face - p) * (1 / d) is (face - p) / d. */
  lemma FaceParamQuotient(face: real, p: real, d: real)
    requires d != 0.0
    ensures FaceParam(face, p, d) == (face - p) / d
  {
  }

  /** The point q lies in the box's extent along axis i. */
  predicate WithinFaces(q: Pos3, b: AABB, i: nat)
    requires i < 3
  {
    Get(MinCorner(b), i) <= Get(q, i) <= Get(MaxCorner(b), i)
  }

  lemma InBoxByAxes(q: Pos3, b: AABB)
    ensures InBox(q, b.c, b.halfSizes)
        <==> WithinFaces(q, b, 0) && WithinFaces(q, b, 1) && WithinFaces(q, b, 2)
  {
  }

  /** A coordinate moving at rate d from p is between the faces lo <= hi exactly at the parameters of their span. */
  lemma FaceSpan(lo: real, hi: real, p: real, d: real, t: real, q: real)
    requires d != 0.0 && lo <= hi && q == p + t * d
    ensures InSlab(SpanOf(FaceParam(lo, p, d), FaceParam(hi, p, d)), t) <==> lo <= q <= hi
  {
    FaceParamQuotient(lo, p, d);
    FaceParamQuotient(hi, p, d);
    OrderedSpan(FaceParam(lo, p, d), FaceParam(hi, p, d), t);
    DivideBounds(lo - p, hi - p, d, t);
  }

  /** A parameter in the span of a non-parallel axis puts the ray within the faces, and conversely. */
  lemma AabbSpanMeaning(ray: Ray, b: AABB, i: nat, t: real)
    requires i < 3 && Abs(Get(ray.dir, i)) >= EPSILON
    requires Get(b.halfSizes, i) >= 0.0
    ensures InSlab(AabbSpan(ray, b, i), t) <==> WithinFaces(RayAt(ray, t), b, i)
  {
    var lo := Get(MinCorner(b), i);
    var hi := Get(MaxCorner(b), i);
    var p := Get(ray.p, i);
    var d := Get(ray.dir, i);
    assert AabbSpan(ray, b, i) == SpanOf(FaceParam(lo, p, d), FaceParam(hi, p, d));
    CornersOrdered(b, i);
    RayAtCoordinate(ray, t, i);
    FaceSpan(lo, hi, p, d, t, Get(RayAt(ray, t), i));
  }

  /** With a non-negative half size the lower face is below the upper one. */
  lemma CornersOrdered(b: AABB, i: nat)
    requires i < 3 && Get(b.halfSizes, i) >= 0.0
    ensures Get(MinCorner(b), i) <= Get(MaxCorner(b), i)
  {
  }

  /** With both faces checked, a parameter in the slab of a resolved axis puts the ray within the faces. */
  lemma AabbSlabCheckedSound(ray: Ray, b: AABB, i: nat, t: real)
    requires i < 3 && Get(b.halfSizes, i) >= 0.0
    requires Resolved(Get(ray.dir, i))
    requires InSlab(AabbSlabChecked(ray, b, i), t)
    ensures WithinFaces(RayAt(ray, t), b, i)
  {
    RayAtCoordinate(ray, t, i);
    if Abs(Get(ray.dir, i)) >= EPSILON {
      AabbSpanMeaning(ray, b, i, t);
    }
  }

  /** On a resolved axis, a ray point within the faces has its parameter in both versions of the slab. */
  lemma AabbSlabComplete(ray: Ray, b: AABB, i: nat, t: real)
    requires i < 3 && Get(b.halfSizes, i) >= 0.0
    requires Resolved(Get(ray.dir, i))
    requires WithinFaces(RayAt(ray, t), b, i)
    ensures InSlab(AabbSlab(ray, b, i), t) && InSlab(AabbSlabChecked(ray, b, i), t)
  {
    RayAtCoordinate(ray, t, i);
    if Abs(Get(ray.dir, i)) >= EPSILON {
      AabbSpanMeaning(ray, b, i, t);
    }
  }

  predicate AllResolved(v: Vec3) {
    Resolved(v.x) && Resolved(v.y) && Resolved(v.z)
  }

  predicate NonNegative(v: Vec3) {
    v.x >= 0.0 && v.y >= 0.0 && v.z >= 0.0
  }

  /** The hit of `RayAabbChecked` lies in the box when every direction component is resolved. */
  lemma RayAabbCheckedHitInBox(ray: Ray, b: AABB)
    requires NonNegative(b.halfSizes) && AllResolved(ray.dir)
    requires Clip(AabbSlabsChecked(ray, b)).Some?
    ensures InBox(RayAt(ray, Clip(AabbSlabsChecked(ray, b)).value), b.c, b.halfSizes)
  {
    var s := AabbSlabsChecked(ray, b);
    var t := Clip(s).value;
    ClipSound(s);
    assert InSlab(s[0], t) && InSlab(s[1], t) && InSlab(s[2], t);
    AabbSlabCheckedSound(ray, b, 0, t);
    AabbSlabCheckedSound(ray, b, 1, t);
    AabbSlabCheckedSound(ray, b, 2, t);
    InBoxByAxes(RayAt(ray, t), b);
  }

  /** Any ray point in the box with t in [0, f32::MAX] is matched by a hit at or before it, in both versions. */
  lemma RayAabbHitIsFirst(ray: Ray, b: AABB, t: real)
    requires NonNegative(b.halfSizes) && AllResolved(ray.dir)
    requires InBox(RayAt(ray, t), b.c, b.halfSizes) && 0.0 <= t <= F32_MAX
    ensures Clip(AabbSlabs(ray, b)).Some? && Clip(AabbSlabs(ray, b)).value <= t
    ensures Clip(AabbSlabsChecked(ray, b)).Some? && Clip(AabbSlabsChecked(ray, b)).value <= t
  {
    InBoxByAxes(RayAt(ray, t), b);
    AabbSlabComplete(ray, b, 0, t);
    AabbSlabComplete(ray, b, 1, t);
    AabbSlabComplete(ray, b, 2, t);
    ClipComplete(AabbSlabs(ray, b), t);
    ClipComplete(AabbSlabsChecked(ray, b), t);
  }

  /**
    The cast as written reports a hit outside the box: a ray parallel to the
    y faces, passing above the box, is let through by the parallel-axis test
    (which compares only with the lower face) and hits at (0, 5, -1).
   */
  lemma RayAabbHitsAbove()
    ensures var ray := Ray(Vec3(0.0, 5.0, -5.0), Vec3(0.0, 0.0, 1.0));
            var b := AABB(Zero, Vec3(1.0, 1.0, 1.0));
            Clip(AabbSlabs(ray, b)) == Some(4.0)
            && RayAt(ray, 4.0) == Vec3(0.0, 5.0, -1.0)
            && !InBox(RayAt(ray, 4.0), b.c, b.halfSizes)
            && Clip(AabbSlabsChecked(ray, b)).None?
  {
    var ray := Ray(Vec3(0.0, 5.0, -5.0), Vec3(0.0, 0.0, 1.0));
    var b := AABB(Zero, Vec3(1.0, 1.0, 1.0));
    var s := AabbSlabs(ray, b);
    assert s[0] == Free && s[1] == Free;
    assert s[2] == Span(4.0, 6.0);
    assert !Rejects(s);
    assert s[..2][..1] == [Free];
    assert Lower(s[..1]) == 0.0 && Upper(s[..1]) == F32_MAX;
    assert Lower(s[..2]) == 0.0 && Upper(s[..2]) == F32_MAX;
    assert s[..3] == s;
    assert Lower(s) == 4.0 && Upper(s) == 6.0;
    assert AabbSlabsChecked(ray, b)[1] == Reject;
  }
}
