/**
  The linear algebra the engine takes from cgmath: 3-vectors (also used as
  points), 3x3 matrices stored by columns, and quaternions. Only the
  operations the modelled code calls are defined, with cgmath's formulas.
 */
module Vectors {
  import opened Scalars

  datatype Vec3 = Vec3(x: real, y: real, z: real)

  /** cgmath distinguishes points from vectors; here both are coordinate triples. */
  type Pos3 = Vec3

  const Zero: Vec3 := Vec3(0.0, 0.0, 0.0)

  function Add(a: Vec3, b: Vec3): Vec3 {
    Vec3(a.x + b.x, a.y + b.y, a.z + b.z)
  }

  function Sub(a: Vec3, b: Vec3): Vec3 {
    Vec3(a.x - b.x, a.y - b.y, a.z - b.z)
  }

  function Neg(a: Vec3): Vec3 {
    Vec3(-a.x, -a.y, -a.z)
  }

  /** `a * k` and `k * a` for a scalar k. */
  function Scale(k: real, a: Vec3): Vec3 {
    Vec3(k * a.x, k * a.y, k * a.z)
  }

  function Dot(a: Vec3, b: Vec3): real {
    a.x * b.x + a.y * b.y + a.z * b.z
  }

  function Cross(a: Vec3, b: Vec3): Vec3 {
    Vec3(a.y * b.z - a.z * b.y, a.z * b.x - a.x * b.z, a.x * b.y - a.y * b.x)
  }

  /** `magnitude2`: the squared length. */
  function Norm2(a: Vec3): real {
    Dot(a, a)
  }

  /** `distance2` between two points. */
  function Dist2(a: Pos3, b: Pos3): real {
    Norm2(Sub(a, b))
  }

  /** Component access `v[i]`; cgmath panics for an index above 2. */
  function Get(a: Vec3, i: nat): real
    requires i < 3
  {
    if i == 0 then a.x else if i == 1 then a.y else a.z
  }

  /** A sum of three squares is non-negative. */
  lemma SumOfSquares(u: real, v: real, w: real)
    ensures u * u + v * v + w * w >= 0.0
  {
  }

  lemma Norm2NonNegative(a: Vec3)
    ensures Norm2(a) >= 0.0
  {
    SumOfSquares(a.x, a.y, a.z);
  }

  lemma Dist2Self(a: Pos3)
    ensures Dist2(a, a) == 0.0
  {
    assert Sub(a, a) == Zero;
  }

  lemma Dist2Symmetric(a: Pos3, b: Pos3)
    ensures Dist2(a, b) == Dist2(b, a)
  {
    assert (a.x - b.x) * (a.x - b.x) == (b.x - a.x) * (b.x - a.x);
    assert (a.y - b.y) * (a.y - b.y) == (b.y - a.y) * (b.y - a.y);
    assert (a.z - b.z) * (a.z - b.z) == (b.z - a.z) * (b.z - a.z);
  }

  lemma DotAddLeft(a: Vec3, b: Vec3, n: Vec3)
    ensures Dot(Add(a, b), n) == Dot(a, n) + Dot(b, n)
  {
  }

  lemma DotScaleLeft(k: real, a: Vec3, n: Vec3)
    ensures Dot(Scale(k, a), n) == k * Dot(a, n)
  {
  }

  lemma DotSymmetric(a: Vec3, b: Vec3)
    ensures Dot(a, b) == Dot(b, a)
  {
  }

  /** The squared length of a scaled vector. */
  lemma Norm2Scale(k: real, a: Vec3)
    ensures Norm2(Scale(k, a)) == k * k * Norm2(a)
  {
    assert (k * a.x) * (k * a.x) == k * k * (a.x * a.x);
    assert (k * a.y) * (k * a.y) == k * k * (a.y * a.y);
    assert (k * a.z) * (k * a.z) == k * k * (a.z * a.z);
  }

  lemma DotScaleRight(k: real, a: Vec3, n: Vec3)
    ensures Dot(a, Scale(k, n)) == k * Dot(a, n)
  {
    assert a.x * (k * n.x) == k * (a.x * n.x);
    assert a.y * (k * n.y) == k * (a.y * n.y);
    assert a.z * (k * n.z) == k * (a.z * n.z);
  }

  /** One coordinate of a cross product, scaled in its second factor. */
  lemma ScaleDifference(k: real, p: real, q: real, u: real, v: real)
    ensures p * (k * q) - u * (k * v) == k * (p * q - u * v)
  {
    assert p * (k * q) == k * (p * q);
    assert u * (k * v) == k * (u * v);
  }

  /** The cross product is linear in its second factor. */
  lemma CrossScaleRight(a: Vec3, k: real, b: Vec3)
    ensures Cross(a, Scale(k, b)) == Scale(k, Cross(a, b))
  {
    var l := Cross(a, Scale(k, b));
    var r := Scale(k, Cross(a, b));
    assert l.x == r.x by { ScaleDifference(k, a.y, b.z, a.z, b.y); }
    assert l.y == r.y by { ScaleDifference(k, a.z, b.x, a.x, b.z); }
    assert l.z == r.z by { ScaleDifference(k, a.x, b.y, a.y, b.x); }
  }

  /** Scaling twice is scaling by the product. */
  lemma ScaleScale(j: real, k: real, a: Vec3)
    ensures Scale(j, Scale(k, a)) == Scale(j * k, a)
  {
    assert j * (k * a.x) == (j * k) * a.x;
    assert j * (k * a.y) == (j * k) * a.y;
    assert j * (k * a.z) == (j * k) * a.z;
  }

  /** A cross product is orthogonal to both of its factors. */
  lemma CrossOrthogonal(a: Vec3, b: Vec3)
    ensures Dot(Cross(a, b), a) == 0.0
    ensures Dot(Cross(a, b), b) == 0.0
  {
  }

  /** The cross product of parallel vectors vanishes. */
  lemma CrossParallel(k: real, a: Vec3)
    ensures Cross(Scale(k, a), a) == Zero
    ensures Cross(a, Scale(k, a)) == Zero
  {
    assert (k * a.y) * a.z == (k * a.z) * a.y;
    assert (k * a.z) * a.x == (k * a.x) * a.z;
    assert (k * a.x) * a.y == (k * a.y) * a.x;
  }

  /** A 3x3 matrix given by its columns; `m[i]` is column i. */
  datatype Mat3 = Mat3(x: Vec3, y: Vec3, z: Vec3)

  function Col(m: Mat3, i: nat): Vec3
    requires i < 3
  {
    if i == 0 then m.x else if i == 1 then m.y else m.z
  }

  /** A quaternion s + v.x i + v.y j + v.z k (`Quaternion::new(s, x, y, z)`). */
  datatype Quat = Quat(s: real, v: Vec3)

  const Identity: Quat := Quat(1.0, Zero)

  function QAdd(p: Quat, q: Quat): Quat {
    Quat(p.s + q.s, Add(p.v, q.v))
  }

  function QScale(k: real, q: Quat): Quat {
    Quat(k * q.s, Scale(k, q.v))
  }

  /** The Hamilton product. */
  function QMul(p: Quat, q: Quat): Quat {
    Quat(p.s * q.s - Dot(p.v, q.v), Add(Add(Scale(p.s, q.v), Scale(q.s, p.v)), Cross(p.v, q.v)))
  }

  /** The squared norm (`magnitude2`) of a quaternion. */
  function QNorm2(q: Quat): real {
    q.s * q.s + Norm2(q.v)
  }

  /** The four-dimensional inner product of two quaternions. */
  function QDot(p: Quat, q: Quat): real {
    p.s * q.s + Dot(p.v, q.v)
  }

  /** A pure quaternion (0, w) times q is orthogonal to q. */
  lemma QMulPureOrthogonal(w: Vec3, q: Quat)
    ensures QDot(q, QMul(Quat(0.0, w), q)) == 0.0
  {
    var m := QMul(Quat(0.0, w), q);
    assert m.s == -Dot(w, q.v);
    assert m.v == Add(Scale(q.s, w), Cross(w, q.v));
    DotAddLeft(Scale(q.s, w), Cross(w, q.v), q.v);
    DotScaleLeft(q.s, w, q.v);
    CrossOrthogonal(w, q.v);
    DotSymmetric(q.v, m.v);
    DotSymmetric(w, q.v);
  }

  /** Lagrange's identity: |a x b|^2 + (a . b)^2 == |a|^2 |b|^2. */
  lemma Lagrange(a: Vec3, b: Vec3)
    ensures Norm2(Cross(a, b)) + Dot(a, b) * Dot(a, b) == Norm2(a) * Norm2(b)
  {
  }

  /** The norm of a pure quaternion times q is the product of the norms. */
  lemma QMulPureNorm(w: Vec3, q: Quat)
    ensures QNorm2(QMul(Quat(0.0, w), q)) == Norm2(w) * QNorm2(q)
  {
    var m := QMul(Quat(0.0, w), q);
    assert m.v == Add(Scale(q.s, w), Cross(w, q.v));
    Norm2AddOrthogonal(Scale(q.s, w), Cross(w, q.v));
    Norm2Scale(q.s, w);
    Lagrange(w, q.v);
  }

  /** Pythagoras: |u + v|^2 == |u|^2 + |v|^2 for orthogonal u and v. */
  lemma Norm2AddOrthogonal(u: Vec3, v: Vec3)
    requires Dot(u, v) == 0.0
    ensures Norm2(Add(u, v)) == Norm2(u) + Norm2(v)
  {
  }

  /** Adding a multiple of an orthogonal quaternion adds its squared norm. */
  lemma QNorm2AddOrthogonal(p: Quat, d: Quat, k: real)
    requires QDot(p, d) == 0.0
    ensures QNorm2(QAdd(p, QScale(k, d))) == QNorm2(p) + k * k * QNorm2(d)
  {
  }
}
