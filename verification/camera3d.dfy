/**
  The state updates of the camera3d game: the player ball, the three
  cameras, the marbles and the tilting wall. Each update is a pure function
  (or, for the marbles, a method) from the old record to the new one; the
  frame time DT is the parameter `dt`.
 */
module Camera3d {
  import opened Scalars
  import opened Vectors
  import opened Outcomes
  import opened Geom
  import opened Events
  import opened Saves

  /** Gravity along -y. */
  const G: real := 1.0

  /** `Player::MAX_SPEED`. */
  const MAX_SPEED: real := 3.0

  /** The momentum gravity adds in one frame: (0, -G, 0) * DT. */
  function GravityImpulse(dt: real): Vec3 {
    Scale(dt, Vec3(0.0, -G, 0.0))
  }

  // ---------------------------------------------------------------------
  // Player
  // ---------------------------------------------------------------------

  datatype Player = Player(body: Sphere, velocity: Vec3, acc: Vec3, rot: Quat, omega: Vec3)

  /** `Player::apply_impulse`: add l to the linear and a to the angular momentum. */
  function ApplyImpulse(p: Player, l: Vec3, a: Vec3): (r: Player)
    ensures Sub(r.body.linMom, p.body.linMom) == l && Sub(r.body.angMom, p.body.angMom) == a
    ensures r.body.c == p.body.c && r.body.r == p.body.r && r.body.mass == p.body.mass
    ensures r.velocity == p.velocity && r.acc == p.acc && r.rot == p.rot && r.omega == p.omega
  {
    p.(body := p.body.(linMom := Add(p.body.linMom, l), angMom := Add(p.body.angMom, a)))
  }

  /** An impulse is undone by its opposite. */
  lemma ApplyImpulseUndo(p: Player, l: Vec3, a: Vec3)
    ensures ApplyImpulse(ApplyImpulse(p, l, a), Neg(l), Neg(a)) == p
  {
  }

  /** Two impulses add up to one. */
  lemma ApplyImpulseTwice(p: Player, l1: Vec3, a1: Vec3, l2: Vec3, a2: Vec3)
    ensures ApplyImpulse(ApplyImpulse(p, l1, a1), l2, a2) == ApplyImpulse(p, Add(l1, l2), Add(a1, a2))
  {
  }

  /** `normalize_to(MAX_SPEED)` when the speed exceeds MAX_SPEED, else the velocity itself. */
  function CapSpeed(v: Vec3, sqrt: real -> real): Vec3 {
    var speed := sqrt(Norm2(v));
    if speed > MAX_SPEED then Scale(MAX_SPEED / speed, v) else v
  }

  /** The rotation step q + (DT / 2) (0, omega) q. */
  function Spin(q: Quat, omega: Vec3, dt: real): Quat {
    QAdd(q, QScale(0.5 * dt, QMul(Quat(0.0, omega), q)))
  }

  /**
    `Player::integrate`: gravity is applied as an impulse, the velocity is
    the new momentum capped at MAX_SPEED, the centre advances by
    velocity * DT, and the orientation takes one Euler step of the angular
    momentum (inertia is ignored).
   */
  function Integrate(p: Player, dt: real, sqrt: real -> real): (r: Player)
    ensures r.body.c == Add(p.body.c, Scale(dt, r.velocity))
    ensures Sub(r.body.linMom, p.body.linMom) == GravityImpulse(dt)
    ensures r.body.angMom == p.body.angMom && r.omega == p.body.angMom
    ensures r.body.r == p.body.r && r.body.mass == p.body.mass && r.acc == p.acc
    ensures r.velocity == CapSpeed(r.body.linMom, sqrt)
    ensures r.rot == Spin(p.rot, p.body.angMom, dt)
  {
    var q := ApplyImpulse(p, GravityImpulse(dt), Zero);
    var v := CapSpeed(q.body.linMom, sqrt);
    var omega := q.body.angMom;
    q.(body := q.body.(c := Add(q.body.c, Scale(dt, v))), velocity := v, omega := omega,
       rot := Spin(q.rot, omega, dt))
  }

  /** A factor 3 / s with s > 3 and s^2 == n shrinks n to 9. */
  lemma CapFactor(n: real, s: real, k: real)
    requires s > MAX_SPEED && s * s == n && k == MAX_SPEED / s
    ensures 0.0 < k < 1.0
    ensures k * k * n == MAX_SPEED * MAX_SPEED
  {
    assert k * s == MAX_SPEED;
  }

  /**
    The velocity is the momentum when its speed is at most MAX_SPEED, and
    otherwise the momentum shrunk by a factor in (0, 1) to exactly that speed.
   */
  lemma CapSpeedBound(v: Vec3, sqrt: real -> real)
    requires IsSqrt(sqrt)
    ensures Norm2(v) <= MAX_SPEED * MAX_SPEED ==> CapSpeed(v, sqrt) == v
    ensures Norm2(v) > MAX_SPEED * MAX_SPEED ==>
      Norm2(CapSpeed(v, sqrt)) == MAX_SPEED * MAX_SPEED
      && exists k :: 0.0 < k < 1.0 && CapSpeed(v, sqrt) == Scale(k, v)
  {
    Norm2NonNegative(v);
    SqrtGreater(sqrt, Norm2(v), MAX_SPEED);
    if Norm2(v) > MAX_SPEED * MAX_SPEED {
      var s := sqrt(Norm2(v));
      var k := MAX_SPEED / s;
      SqrtFacts(sqrt, Norm2(v));
      CapFactor(Norm2(v), s, k);
      Norm2Scale(k, v);
    }
  }

  /** After `integrate` the player never moves faster than MAX_SPEED. */
  lemma IntegrateSpeedBound(p: Player, dt: real, sqrt: real -> real)
    requires IsSqrt(sqrt)
    ensures Norm2(Integrate(p, dt, sqrt).velocity) <= MAX_SPEED * MAX_SPEED
    ensures Norm2(Integrate(p, dt, sqrt).body.linMom) <= MAX_SPEED * MAX_SPEED
        ==> Integrate(p, dt, sqrt).velocity == Integrate(p, dt, sqrt).body.linMom
  {
    CapSpeedBound(Add(p.body.linMom, GravityImpulse(dt)), sqrt);
  }

  /**
    The rotation step moves orthogonally to the orientation, so it does not
    keep a unit quaternion unit: the squared norm grows by the factor
    1 + (DT / 2)^2 |omega|^2.
   */
  lemma SpinNorm(q: Quat, omega: Vec3, dt: real)
    ensures QNorm2(Spin(q, omega, dt)) == QNorm2(q) * (1.0 + (0.5 * dt) * (0.5 * dt) * Norm2(omega))
  {
    var d := QMul(Quat(0.0, omega), q);
    var k := 0.5 * dt;
    QMulPureOrthogonal(omega, q);
    QNorm2AddOrthogonal(q, d, k);
    QMulPureNorm(omega, q);
    GrowthFactor(QNorm2(q), k * k, Norm2(omega), QNorm2(d));
  }

  lemma GrowthFactor(n: real, kk: real, w: real, m: real)
    requires m == w * n
    ensures n + kk * m == n * (1.0 + kk * w)
  {
  }

  /** Without spin, `integrate` keeps the orientation. */
  lemma IntegrateNoSpin(p: Player, dt: real, sqrt: real -> real)
    requires p.body.angMom == Zero
    ensures Integrate(p, dt, sqrt).rot == p.rot
  {
    var d := QMul(Quat(0.0, Zero), p.rot);
    assert d == Quat(0.0, Zero);
  }

  /** The player `Player::new` builds at centre c. */
  function Fresh(c: Pos3): Player {
    Player(Sphere(c, 0.3, Zero, Zero, 1.0), Zero, Zero, Identity, Zero)
  }

  /** Where a player starts when there is no save. */
  const START: Pos3 := Vec3(0.0, 3.0, 0.0)

  /**
    `Player::new`, given the result of reading the save file: a player of
    radius 0.3 and mass 1 at rest with identity orientation, at the saved
    location, or at (0, 3, 0) when the save could not be read.
   */
  function NewPlayer(save: Option<SaveFile>): (r: Player)
    ensures r.body.r == 0.3 && r.body.mass == 1.0 && r.rot == Identity
    ensures r.body.linMom == Zero && r.body.angMom == Zero && r.velocity == Zero && r.omega == Zero
    ensures r.acc == Zero
    ensures save.None? ==> r.body.c == START
    ensures save.Some? ==> r.body.c == Vec3(save.value.location.x, save.value.location.y, save.value.location.z)
  {
    match save
    case Some(load) => Fresh(Vec3(load.location.x, load.location.y, load.location.z))
    case None => Fresh(START)
  }

  /** Loading what `new_save` wrote for a position starts the player at that position. */
  lemma LoadAfterSave(position: Pos3)
    ensures NewPlayer(Some(SaveOf(position))).body.c == position
  {
  }

  // ---------------------------------------------------------------------
  // Cameras
  // ---------------------------------------------------------------------

  /** The pitch and yaw limit of the cameras. */
  const QUARTER_TURN: real := PI / 4.0

  /** Mouse motion of 100 units turns the camera by one radian, within [-limit, limit]. */
  function Turn(angle: real, delta: real, limit: real): real
    requires limit >= 0.0
  {
    Clamp(angle + delta / 100.0, -limit, limit)
  }

  /** An angle already within the limit is left alone by no mouse motion. */
  lemma TurnStill(angle: real, limit: real)
    requires limit >= 0.0 && -limit <= angle <= limit
    ensures Turn(angle, 0.0, limit) == angle
  {
  }

  datatype FPCamera = FPCamera(pitch: real, playerPos: Pos3, playerRot: Quat)

  /** `FPCamera::update`: pitch follows the mouse within [-PI/4, PI/4]; the player's pose is copied. */
  function UpdateFP(cam: FPCamera, ev: Events, player: Player): (r: FPCamera)
    ensures -QUARTER_TURN <= r.pitch <= QUARTER_TURN
    ensures -QUARTER_TURN <= cam.pitch + ev.dy / 100.0 <= QUARTER_TURN ==> r.pitch == cam.pitch + ev.dy / 100.0
    ensures r.playerPos == player.body.c && r.playerRot == player.rot
  {
    FPCamera(Turn(cam.pitch, ev.dy, QUARTER_TURN), player.body.c, player.rot)
  }

  /** A second update without mouse motion changes nothing. */
  lemma UpdateFPSettles(cam: FPCamera, ev: Events, player: Player)
    ensures UpdateFP(UpdateFP(cam, ev, player), Idle, player) == UpdateFP(cam, ev, player)
  {
  }

  datatype OrbitCamera = OrbitCamera(pitch: real, yaw: real, distance: real, playerPos: Pos3, playerRot: Quat)

  /** One step of the zoom: Up brings the camera 0.5 closer, Down takes it 0.5 away. */
  function Zoom(distance: real, closer: bool, farther: bool): real {
    var d := if closer then distance - 0.5 else distance;
    if farther then d + 0.5 else d
  }

  /** Zooming moves by -0.5, +0.5 or not at all, and both keys together cancel. */
  lemma ZoomSteps(distance: real, closer: bool, farther: bool)
    ensures Zoom(distance, closer, farther) - distance
        == (if closer && !farther then -0.5 else if farther && !closer then 0.5 else 0.0)
  {
  }

  /**
    `OrbitCamera::update` of camera3d: pitch and yaw follow the mouse, both
    within [-PI/4, PI/4]; Up and Down pressed this frame zoom; the player's
    pose is copied.
   */
  function UpdateOrbit(cam: OrbitCamera, ev: Events, player: Player): (r: OrbitCamera)
    ensures -QUARTER_TURN <= r.pitch <= QUARTER_TURN && -QUARTER_TURN <= r.yaw <= QUARTER_TURN
    ensures -QUARTER_TURN <= cam.yaw + ev.dx / 100.0 <= QUARTER_TURN ==> r.yaw == cam.yaw + ev.dx / 100.0
    ensures -QUARTER_TURN <= cam.pitch + ev.dy / 100.0 <= QUARTER_TURN ==> r.pitch == cam.pitch + ev.dy / 100.0
    ensures r.playerPos == player.body.c && r.playerRot == player.rot
  {
    OrbitCamera(
      Turn(cam.pitch, ev.dy, QUARTER_TURN),
      Turn(cam.yaw, ev.dx, QUARTER_TURN),
      Zoom(cam.distance, KeyPressed(ev, Up), KeyPressed(ev, Down)),
      player.body.c, player.rot)
  }

  /** The orbit camera's distance moves by 0.5 towards Up or Down, and not at all for both or neither. */
  lemma UpdateOrbitDistance(cam: OrbitCamera, ev: Events, player: Player)
    ensures var step := UpdateOrbit(cam, ev, player).distance - cam.distance;
      (Up in ev.pressed && Down !in ev.pressed ==> step == -0.5)
      && (Down in ev.pressed && Up !in ev.pressed ==> step == 0.5)
      && ((Up in ev.pressed) == (Down in ev.pressed) ==> step == 0.0)
  {
    ZoomSteps(cam.distance, KeyPressed(ev, Up), KeyPressed(ev, Down));
  }

  /** A second update in an idle frame changes nothing. */
  lemma UpdateOrbitSettles(cam: OrbitCamera, ev: Events, player: Player)
    ensures UpdateOrbit(UpdateOrbit(cam, ev, player), Idle, player) == UpdateOrbit(cam, ev, player)
  {
  }

  /** What the renderer's camera is given: where the eye is and what it looks at. */
  datatype View = View(eye: Pos3, target: Pos3)

  /** `OrbitCamera::update_camera` of camera3d: the target becomes the player, the eye is left where it was. */
  function OrbitUpdateCamera(cam: OrbitCamera, view: View): (r: View)
    ensures r.target == cam.playerPos && r.eye == view.eye
  {
    view.(target := cam.playerPos)
  }

  datatype TopDownCamera = TopDownCamera(distance: real, playerPos: Pos3)

  /** `TopDownCamera::update`: Up and Down pressed this frame zoom; the player's centre is copied. */
  function UpdateTopDown(cam: TopDownCamera, ev: Events, player: Player): (r: TopDownCamera)
    ensures r.playerPos == player.body.c
  {
    TopDownCamera(Zoom(cam.distance, KeyPressed(ev, Up), KeyPressed(ev, Down)), player.body.c)
  }

  /** The top-down camera zooms exactly as the orbit camera does. */
  lemma UpdateTopDownDistance(cam: TopDownCamera, ev: Events, player: Player)
    ensures UpdateTopDown(cam, ev, player).distance
        == UpdateOrbit(OrbitCamera(0.0, 0.0, cam.distance, Zero, Identity), ev, player).distance
  {
  }

  /**
    `TopDownCamera::update_camera`: the camera looks at the player from
    `distance` above, nudged 0.001 along z so that the view direction is
    not parallel to the up axis.
   */
  function TopDownUpdateCamera(cam: TopDownCamera): (r: View)
    ensures r.target == cam.playerPos
    ensures r.eye.x == r.target.x && r.eye.y - r.target.y == cam.distance && r.eye.z - r.target.z == 0.001
  {
    View(Add(cam.playerPos, Vec3(0.0, cam.distance, 0.001)), cam.playerPos)
  }

  /** The top-down eye is distance^2 + 0.001^2 away from the player, squared. */
  lemma TopDownEyeDistance(cam: TopDownCamera)
    ensures Dist2(TopDownUpdateCamera(cam).eye, cam.playerPos) == cam.distance * cam.distance + 0.000001
  {
    var v := TopDownUpdateCamera(cam);
    assert Sub(v.eye, cam.playerPos) == Vec3(0.0, cam.distance, 0.001);
  }

  // ---------------------------------------------------------------------
  // Marbles
  // ---------------------------------------------------------------------

  /** The marbles as two parallel lists: bodies and velocities. */
  datatype Marbles = Marbles(body: seq<Sphere>, velocity: seq<Vec3>)

  /**
    `Marbles::integrate`: every velocity falls by G * DT, then each body that
    has a velocity at the same index (the lists are zipped) advances by
    velocity * DT.
   */
  method IntegrateMarbles(m: Marbles, dt: real) returns (r: Marbles)
    ensures |r.body| == |m.body| && |r.velocity| == |m.velocity|
    ensures forall i :: 0 <= i < |m.velocity| ==>
      r.velocity[i] == Vec3(m.velocity[i].x, m.velocity[i].y - G * dt, m.velocity[i].z)
    ensures forall i :: 0 <= i < |m.body| ==>
      r.body[i] == m.body[i].(c := if i < |m.velocity| then Add(m.body[i].c, Scale(dt, r.velocity[i])) else m.body[i].c)
  {
    var velocity := m.velocity;
    for i := 0 to |velocity|
      invariant |velocity| == |m.velocity|
      invariant forall k :: 0 <= k < i ==>
        velocity[k] == Vec3(m.velocity[k].x, m.velocity[k].y - G * dt, m.velocity[k].z)
      invariant forall k :: i <= k < |velocity| ==> velocity[k] == m.velocity[k]
    {
      velocity := velocity[i := Add(velocity[i], GravityImpulse(dt))];
    }
    var body := m.body;
    var n := if |body| < |velocity| then |body| else |velocity|;
    for i := 0 to n
      invariant |body| == |m.body|
      invariant forall k :: 0 <= k < i ==> body[k] == m.body[k].(c := Add(m.body[k].c, Scale(dt, velocity[k])))
      invariant forall k :: i <= k < |body| ==> body[k] == m.body[k]
    {
      body := body[i := body[i].(c := Add(body[i].c, Scale(dt, velocity[i])))];
    }
    r := Marbles(body, velocity);
  }

  // ---------------------------------------------------------------------
  // Wall
  // ---------------------------------------------------------------------

  /** The tilting wall: a plane and the tilt direction chosen by the keys, each -1, 0 or 1. */
  datatype Wall = Wall(body: Plane, control: (int, int))

  /** One tilt axis: the first key wins over the second. */
  function Steer(first: bool, second: bool): int {
    if first then -1 else if second then 1 else 0
  }

  /** `Wall::input`: A/D steer about x, W/S about z, by the keys held; A beats D and W beats S. */
  function WallInput(w: Wall, ev: Events): (r: Wall)
    ensures r.body == w.body
    ensures -1 <= r.control.0 <= 1 && -1 <= r.control.1 <= 1
  {
    w.(control := (Steer(KeyHeld(ev, A), KeyHeld(ev, D)), Steer(KeyHeld(ev, W), KeyHeld(ev, S))))
  }

  /** Each control is -1 exactly when its first key is held, and 1 exactly when only its second key is. */
  lemma WallInputKeys(w: Wall, ev: Events)
    ensures WallInput(w, ev).control.0 == -1 <==> A in ev.held
    ensures WallInput(w, ev).control.0 == 1 <==> D in ev.held && A !in ev.held
    ensures WallInput(w, ev).control.1 == -1 <==> W in ev.held
    ensures WallInput(w, ev).control.1 == 1 <==> S in ev.held && W !in ev.held
  {
  }

  /** The new controls depend only on the keys held, not on the old ones. */
  lemma WallInputForgets(w1: Wall, w2: Wall, ev: Events)
    requires w1.body == w2.body
    ensures WallInput(w1, ev) == WallInput(w2, ev)
  {
  }
}
