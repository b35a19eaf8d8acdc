/**
  The state updates of the anim3d demo: the player cycles through its
  animation clips, four seconds each, and an orbit camera follows it.
 */
module Anim3d {
  import opened Scalars
  import opened Vectors
  import opened Outcomes
  import opened Events

  /** How long each clip plays before the next one starts. */
  const CLIP_TIME: real := 4.0

  /** The animated player: position, time into the current clip, and the clip's index. The bone poses are left out. */
  datatype Player = Player(pos: Pos3, t: real, anim: nat)

  /** The clip timer stays in [0, 4] and the clip index names one of the `clips` clips. */
  predicate Valid(p: Player, clips: nat) {
    0.0 <= p.t <= CLIP_TIME && p.anim < clips
  }

  /**
    `Player::integrate`: the clock advances by DT; once it passes four
    seconds it restarts at 0 and the next clip, wrapping around, is chosen.
    The wrap-around is a remainder by the number of clips, which panics when
    there are none.
   */
  function Integrate(p: Player, dt: real, clips: nat): (r: Outcome<Player>)
    ensures r.Panic? <==> p.t + dt > CLIP_TIME && clips == 0
    ensures r.Done? ==> r.value.pos == p.pos
    ensures r.Done? && p.t + dt <= CLIP_TIME ==> r.value.t == p.t + dt && r.value.anim == p.anim
    ensures r.Done? && p.t + dt > CLIP_TIME ==> r.value.t == 0.0 && r.value.anim == (p.anim + 1) % clips
  {
    var t := p.t + dt;
    if t > CLIP_TIME then
      if clips == 0 then Panic else Done(p.(t := 0.0, anim := (p.anim + 1) % clips))
    else
      Done(p.(t := t))
  }

  /** A non-negative step keeps a valid player valid, and never panics on one. */
  lemma IntegrateValid(p: Player, dt: real, clips: nat)
    requires Valid(p, clips) && dt >= 0.0
    ensures Integrate(p, dt, clips).Done? && Valid(Integrate(p, dt, clips).value, clips)
  {
  }

  /** The player after n frames, or `Panic` if one of them panicked. */
  function Run(p: Player, dt: real, clips: nat, n: nat): Outcome<Player>
    decreases n
  {
    if n == 0 then Done(p)
    else
      match Integrate(p, dt, clips)
      case Panic => Panic
      case Done(q) => Run(q, dt, clips, n - 1)
  }

  /** Any number of non-negative frames keeps a valid player valid and in place. */
  lemma {:induction false} RunValid(p: Player, dt: real, clips: nat, n: nat)
    requires Valid(p, clips) && dt >= 0.0
    ensures Run(p, dt, clips, n).Done?
    ensures Valid(Run(p, dt, clips, n).value, clips) && Run(p, dt, clips, n).value.pos == p.pos
    decreases n
  {
    if n > 0 {
      IntegrateValid(p, dt, clips);
      RunValid(Integrate(p, dt, clips).value, dt, clips, n - 1);
    }
  }

  /**
    While the clock has not passed four seconds, k frames only advance the
    timer, by exactly k * dt, and keep the clip.
   */
  lemma {:induction false} RunWithinClip(p: Player, dt: real, clips: nat, k: nat)
    requires dt >= 0.0
    requires p.t + Elapsed(k, dt) <= CLIP_TIME
    ensures Run(p, dt, clips, k) == Done(p.(t := p.t + Elapsed(k, dt)))
    decreases k
  {
    if k > 0 {
      var q := p.(t := p.t + dt);
      FramesSplit(dt, k);
      assert Integrate(p, dt, clips) == Done(q);
      assert Run(p, dt, clips, k) == Run(q, dt, clips, k - 1);
      RunWithinClip(q, dt, clips, k - 1);
      assert q.(t := q.t + Elapsed(k - 1, dt)) == p.(t := p.t + Elapsed(k, dt));
    }
  }

  /** The time k frames of length dt take. */
  function Elapsed(k: nat, dt: real): real {
    (k as real) * dt
  }

  /** k frames are one frame and k - 1 more. */
  lemma FramesSplit(dt: real, k: nat)
    requires k > 0 && dt >= 0.0
    ensures Elapsed(k, dt) == dt + Elapsed(k - 1, dt)
    ensures Elapsed(k - 1, dt) >= 0.0
  {
  }

  /**
    The clip index after k frames that end exactly one clip: if the clock
    passes four seconds on frame k + 1, that frame restarts the clock and
    moves to the next clip.
   */
  lemma {:induction false} RunWraps(p: Player, dt: real, clips: nat, k: nat)
    requires dt >= 0.0 && clips > 0
    requires p.t + Elapsed(k, dt) <= CLIP_TIME < p.t + Elapsed(k + 1, dt)
    ensures Run(p, dt, clips, k + 1) == Done(p.(t := 0.0, anim := (p.anim + 1) % clips))
    decreases k
  {
    if k == 0 {
      assert Integrate(p, dt, clips) == Done(p.(t := 0.0, anim := (p.anim + 1) % clips));
    } else {
      var q := p.(t := p.t + dt);
      FramesSplit(dt, k);
      FramesSplit(dt, k + 1);
      assert Integrate(p, dt, clips) == Done(q);
      assert Run(p, dt, clips, k + 1) == Run(q, dt, clips, k);
      RunWraps(q, dt, clips, k - 1);
    }
  }

  datatype OrbitCamera = OrbitCamera(pitch: real, yaw: real, distance: real, playerPos: Pos3)

  /**
    `OrbitCamera::update` of anim3d: pitch follows the mouse within
    [-PI/4, PI/4] and yaw within [-PI, PI]; Up and Down held zoom by 0.5;
    the player's position is copied.
   */
  function UpdateOrbit(cam: OrbitCamera, ev: Events, player: Player): (r: OrbitCamera)
    ensures -PI / 4.0 <= r.pitch <= PI / 4.0 && -PI <= r.yaw <= PI
    ensures -PI <= cam.yaw + ev.dx / 100.0 <= PI ==> r.yaw == cam.yaw + ev.dx / 100.0
    ensures -PI / 4.0 <= cam.pitch + ev.dy / 100.0 <= PI / 4.0 ==> r.pitch == cam.pitch + ev.dy / 100.0
    ensures r.playerPos == player.pos
  {
    var pitch := Clamp(cam.pitch + ev.dy / 100.0, -PI / 4.0, PI / 4.0);
    var yaw := Clamp(cam.yaw + ev.dx / 100.0, -PI, PI);
    var distance := if KeyHeld(ev, Up) then cam.distance - 0.5 else cam.distance;
    var distance := if KeyHeld(ev, Down) then distance + 0.5 else distance;
    OrbitCamera(pitch, yaw, distance, player.pos)
  }

  /** The distance moves by 0.5 towards a held Up or Down, and not at all for both or neither. */
  lemma UpdateOrbitDistance(cam: OrbitCamera, ev: Events, player: Player)
    ensures var step := UpdateOrbit(cam, ev, player).distance - cam.distance;
      (Up in ev.held && Down !in ev.held ==> step == -0.5)
      && (Down in ev.held && Up !in ev.held ==> step == 0.5)
      && ((Up in ev.held) == (Down in ev.held) ==> step == 0.0)
  {
  }

  /** A second update in an idle frame changes nothing. */
  lemma UpdateOrbitSettles(cam: OrbitCamera, ev: Events, player: Player)
    ensures UpdateOrbit(UpdateOrbit(cam, ev, player), Idle, player) == UpdateOrbit(cam, ev, player)
  {
  }
}
