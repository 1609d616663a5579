/** One Euler-Cromer step: `get_accell`, `update_vel` and `update_pos` as
    methods over the mutable bodies, each proved against a pure function of
    the snapshot taken before it runs. */
module Integrator {
  import opened Vectors
  import opened Forces
  import opened Bodies

  /** `G = 6.67408e-11`, the gravitational constant `get_accell` uses. */
  const G: real := 0.0000000000667408

  /** The index at which `update_vel` raises: the first body whose
      acceleration divides by zero, or the number of bodies when none does. */
  function FirstClash(ps: seq<Particle>): (k: nat)
    ensures k <= |ps|
    ensures forall i :: 0 <= i < k ==> !Coincident(ps, i)
    ensures k < |ps| ==> Coincident(ps, k)
  {
    FirstClashFrom(ps, 0)
  }

  function FirstClashFrom(ps: seq<Particle>, i: nat): (k: nat)
    requires i <= |ps|
    ensures i <= k <= |ps|
    ensures forall j :: i <= j < k ==> !Coincident(ps, j)
    ensures k < |ps| ==> Coincident(ps, k)
    decreases |ps| - i
  {
    if i == |ps| || Coincident(ps, i) then i else FirstClashFrom(ps, i + 1)
  }

  /** `update_vel` runs to the end exactly when no two bodies share a
      position. */
  lemma NoClashIffAllSeparated(ps: seq<Particle>)
    ensures FirstClash(ps) == |ps| <==> AllSeparated(ps)
  {
    if FirstClash(ps) < |ps| {
      var t := FirstClash(ps);
      var j :| 0 <= j < |ps| && j != t && ps[j].pos == ps[t].pos;
      assert !AllSeparated(ps);
    } else {
      forall i, j | 0 <= i < |ps| && 0 <= j < |ps| && i != j
        ensures ps[i].pos != ps[j].pos
      {
        assert !Coincident(ps, i);
      }
    }
  }

  /** A body before the first clash has a defined acceleration. */
  lemma AccelBeforeClash(ps: seq<Particle>, i: nat, g: real, sqrt: real -> real)
    requires IsSqrt(sqrt) && i < FirstClash(ps)
    ensures Accel(ps, i, g, sqrt).Ok?
  {
    assert !Coincident(ps, i);
  }

  /** The acceleration `get_accell` returns for a body before the first
      clash. */
  function AccelOf(ps: seq<Particle>, i: nat, g: real, sqrt: real -> real): (a: Vec)
    requires IsSqrt(sqrt) && i < FirstClash(ps)
    ensures Accel(ps, i, g, sqrt) == Ok(a)
  {
    AccelBeforeClash(ps, i, g, sqrt);
    Accel(ps, i, g, sqrt).value
  }

  /** `bod.vel[k] += a[k] * time_step`. */
  function Kick(s: State, a: Vec, dt: real): State {
    s.(vel := AddScaled(s.vel, a, dt))
  }

  /** The bodies once `update_vel` has handled bodies `0 .. k-1`: each of
      those kicked by its acceleration in the snapshot `ss` taken before the
      pass, the rest as they were. */
  function Kicked(ss: seq<State>, k: nat, dt: real, g: real, sqrt: real -> real): (ts: seq<State>)
    requires IsSqrt(sqrt) && k <= FirstClash(ParticlesOf(ss))
    ensures |ts| == |ss|
  {
    seq(|ss|, i requires 0 <= i < |ss| =>
      if i < k then Kick(ss[i], AccelOf(ParticlesOf(ss), i, g, sqrt), dt) else ss[i])
  }

  /** What `update_vel` leaves behind: every body up to the first clash
      kicked. When there is a clash, the pass raises there and the bodies
      after it keep their velocities. */
  function VelPass(ss: seq<State>, dt: real, g: real, sqrt: real -> real): seq<State>
    requires IsSqrt(sqrt)
  {
    Kicked(ss, FirstClash(ParticlesOf(ss)), dt, g, sqrt)
  }

  /** What `update_pos` leaves behind: `pos += vel * time_step` for every
      body, with the velocity the body has now. */
  function PosPass(ss: seq<State>, dt: real): (ts: seq<State>)
    ensures |ts| == |ss|
  {
    seq(|ss|, i requires 0 <= i < |ss| => ss[i].(pos := AddScaled(ss[i].pos, ss[i].vel, dt)))
  }

  /** One step of the loop in `run_simulation`: `update_vel`, then
      `update_pos`; a division by zero if `update_vel` raises. */
  function Step(ss: seq<State>, dt: real, g: real, sqrt: real -> real): Result<seq<State>>
    requires IsSqrt(sqrt)
  {
    if FirstClash(ParticlesOf(ss)) < |ss| then DivisionByZero else Ok(PosPass(VelPass(ss, dt, g, sqrt), dt))
  }

  /** A step raises exactly when two bodies share a position. */
  lemma StepFailsIffCoincident(ss: seq<State>, dt: real, g: real, sqrt: real -> real)
    requires IsSqrt(sqrt)
    ensures Step(ss, dt, g, sqrt).DivisionByZero? <==> !AllSeparated(ParticlesOf(ss))
  {
    NoClashIffAllSeparated(ParticlesOf(ss));
  }

  /** `update_vel` changes velocities only: positions and masses are as
      they were, each body before the first clash gets `vel + a * dt`, and
      the bodies from the clash on are untouched. */
  lemma VelPassFrame(ss: seq<State>, dt: real, g: real, sqrt: real -> real)
    requires IsSqrt(sqrt)
    ensures |VelPass(ss, dt, g, sqrt)| == |ss|
    ensures forall i :: 0 <= i < |ss| ==>
      VelPass(ss, dt, g, sqrt)[i].pos == ss[i].pos && VelPass(ss, dt, g, sqrt)[i].mass == ss[i].mass
    ensures forall i :: 0 <= i < FirstClash(ParticlesOf(ss)) ==>
      VelPass(ss, dt, g, sqrt)[i].vel == AddScaled(ss[i].vel, AccelOf(ParticlesOf(ss), i, g, sqrt), dt)
    ensures forall i :: FirstClash(ParticlesOf(ss)) <= i < |ss| ==> VelPass(ss, dt, g, sqrt)[i] == ss[i]
  {
  }

  /** `update_pos` changes positions only, each by the body's current
      velocity. */
  lemma PosPassFrame(ss: seq<State>, dt: real)
    ensures forall i :: 0 <= i < |ss| ==>
      PosPass(ss, dt)[i].vel == ss[i].vel && PosPass(ss, dt)[i].mass == ss[i].mass &&
      PosPass(ss, dt)[i].pos == AddScaled(ss[i].pos, ss[i].vel, dt)
  {
  }

  /** The in-place pass is the pass over the snapshot. When `update_vel`
      reaches body `j`, the bodies before it already carry new velocities,
      but the force law sees the same positions and masses, so the
      acceleration it computes for `j` from the current state is the one
      of the snapshot, and kicking `j` by it yields `Kicked(ss, j + 1)`. */
  lemma {:induction false} InPlaceKick(ss: seq<State>, j: nat, dt: real, g: real, sqrt: real -> real)
    requires IsSqrt(sqrt) && j < FirstClash(ParticlesOf(ss))
    ensures ParticlesOf(Kicked(ss, j, dt, g, sqrt)) == ParticlesOf(ss)
    ensures var cur := Kicked(ss, j, dt, g, sqrt);
            Kicked(ss, j + 1, dt, g, sqrt) == cur[j := Kick(cur[j], AccelOf(ParticlesOf(cur), j, g, sqrt), dt)]
  {
    var cur := Kicked(ss, j, dt, g, sqrt);
    ParticlesIgnoreVelocity(cur, ss);
    assert forall i :: 0 <= i < |ss| ==> cur[i] == if i < j then Kick(ss[i], AccelOf(ParticlesOf(ss), i, g, sqrt), dt) else ss[i];
  }

  /** Euler-Cromer: when no two bodies coincide, a step kicks every
      velocity by its acceleration first and then moves every body by its
      new velocity. */
  lemma StepIsEulerCromer(ss: seq<State>, dt: real, g: real, sqrt: real -> real)
    requires IsSqrt(sqrt) && AllSeparated(ParticlesOf(ss))
    ensures FirstClash(ParticlesOf(ss)) == |ss|
    ensures Step(ss, dt, g, sqrt).Ok? && |Step(ss, dt, g, sqrt).value| == |ss|
    ensures forall i :: 0 <= i < |ss| ==>
      var t := Step(ss, dt, g, sqrt).value[i];
      t.mass == ss[i].mass &&
      t.vel == AddScaled(ss[i].vel, AccelOf(ParticlesOf(ss), i, g, sqrt), dt) &&
      t.pos == AddScaled(ss[i].pos, t.vel, dt)
  {
    NoClashIffAllSeparated(ParticlesOf(ss));
    VelPassFrame(ss, dt, g, sqrt);
  }

  /** One turn of the loop of `get_accell` for a body `n` other than the
      target: `r` is not zero, and adding `G * m / r**3 * (dx, dy)` to the
      sum so far gives the sum over one more body. */
  lemma AccumulateStep(ps: seq<Particle>, t: nat, n: nat, g: real, sqrt: real -> real,
                       acc: Vec, target: Vec, pos: Vec, mass: real, r: real, k: real, dx: real, dy: real)
    requires t < |ps| && n < |ps| && n != t && IsSqrt(sqrt) && Separated(ps, t, n)
    requires ps[t].pos == target && ps[n] == Particle(pos, mass)
    requires acc == PullSum(ps, t, n, g, sqrt)
    requires r == sqrt(Dist2(target, pos)) && r != 0.0
    requires Cube(r) != 0.0 && k == g * mass / Cube(r)
    requires dx == pos.x - target.x && dy == pos.y - target.y
    ensures Separated(ps, t, n + 1)
    ensures PullSum(ps, t, n + 1, g, sqrt) == Vec(acc.x + k * dx, acc.y + k * dy)
  {
    DistanceZero(target, pos, sqrt);
    assert Pull(target, ps[n], g, sqrt) == Vec(k * dx, k * dy);
  }

  /** The turn of the loop of `get_accell` at the target itself adds
      nothing. */
  lemma SkipTarget(ps: seq<Particle>, t: nat, g: real, sqrt: real -> real)
    requires t < |ps| && IsSqrt(sqrt) && Separated(ps, t, t)
    ensures Separated(ps, t, t + 1)
    ensures PullSum(ps, t, t + 1, g, sqrt) == PullSum(ps, t, t, g, sqrt)
  {
  }

  /** `get_accell(bodies, target_ind)`: the loop over the bodies, summing the
      pulls on the target, then the clamp. A coincident body makes `r` zero,
      and the division by `r**3` raises. */
  method GetAccell(bodies: seq<Body>, targetInd: nat, g: real, sqrt: real -> real, ghost ps: seq<Particle>) returns (r: Result<Vec>)
    requires targetInd < |bodies| && IsSqrt(sqrt)
    requires |ps| == |bodies| && forall j :: 0 <= j < |ps| ==> ps[j] == Particle(bodies[j].pos, bodies[j].mass)
    ensures r == Accel(ps, targetInd, g, sqrt)
  {
    var accell := Zero;
    var target := bodies[targetInd];
    var ind := 0;
    while ind < |bodies|
      invariant 0 <= ind <= |bodies|
      invariant Separated(ps, targetInd, ind)
      invariant accell == PullSum(ps, targetInd, ind, g, sqrt)
    {
      var bod := bodies[ind];
      assert ps[ind] == Particle(bod.pos, bod.mass) && ps[targetInd].pos == target.pos;
      if ind != targetInd {
        var dist := sqrt(Dist2(target.pos, bod.pos));
        DistanceZero(target.pos, bod.pos, sqrt);
        if dist == 0.0 {
          assert Coincident(ps, targetInd);
          return DivisionByZero;
        }
        CubePositive(dist);
        var pull := g * bod.mass / Cube(dist);
        var dx := bod.pos.x - target.pos.x;
        var dy := bod.pos.y - target.pos.y;
        AccumulateStep(ps, targetInd, ind, g, sqrt, accell, target.pos, bod.pos, bod.mass, dist, pull, dx, dy);
        accell := accell.(x := accell.x + pull * dx);
        accell := accell.(y := accell.y + pull * dy);
      } else {
        SkipTarget(ps, targetInd, g, sqrt);
      }
      ind := ind + 1;
    }
    if Max(Max(accell.x, accell.y), Abs(Min(accell.x, accell.y))) > Limit {
      return Ok(Zero);
    }
    return Ok(accell);
  }

  /** The accelerations `update_vel` applies, one per body before the
      first clash. */
  lemma Accelerations(ps: seq<Particle>, g: real, sqrt: real -> real) returns (vs: seq<Vec>)
    requires IsSqrt(sqrt)
    ensures |vs| == |ps|
    ensures forall j {:trigger Accel(ps, j, g, sqrt)} :: 0 <= j < FirstClash(ps) ==> Accel(ps, j, g, sqrt) == Ok(vs[j])
  {
    vs := seq(|ps|, j requires 0 <= j < |ps| => if j < FirstClash(ps) then AccelOf(ps, j, g, sqrt) else Zero);
  }

  /** Up to the first clash, `get_accell` raises exactly at the clash. */
  lemma ClashAt(ps: seq<Particle>, i: nat, g: real, sqrt: real -> real)
    requires IsSqrt(sqrt) && i < |ps| && i <= FirstClash(ps)
    ensures Accel(ps, i, g, sqrt).DivisionByZero? <==> i == FirstClash(ps)
  {
  }

  /** A list of states that kicks the bodies before the first clash by the
      accelerations `vs` and leaves the rest alone is `VelPass`. */
  lemma KickedByAccelerations(ss: seq<State>, ts: seq<State>, vs: seq<Vec>, dt: real, g: real, sqrt: real -> real)
    requires IsSqrt(sqrt) && |ts| == |ss| && |vs| == |ss|
    requires forall j {:trigger Accel(ParticlesOf(ss), j, g, sqrt)} :: 0 <= j < FirstClash(ParticlesOf(ss)) ==> Accel(ParticlesOf(ss), j, g, sqrt) == Ok(vs[j])
    requires forall j :: 0 <= j < |ss| ==>
      ts[j] == if j < FirstClash(ParticlesOf(ss)) then Kick(ss[j], vs[j], dt) else ss[j]
    ensures ts == VelPass(ss, dt, g, sqrt)
  {
    var k := FirstClash(ParticlesOf(ss));
    forall j | 0 <= j < |ss|
      ensures ts[j] == VelPass(ss, dt, g, sqrt)[j]
    {
      if j < k {
        assert Accel(ParticlesOf(ss), j, g, sqrt) == Ok(vs[j]);
      }
    }
  }

  /** `update_vel(bodies, time_step)`: kicks each body in list order by the
      acceleration `get_accell` computes for it. `ok` is false when a call
      raised; the bodies before it have been kicked by then. */
  method UpdateVel(bodies: seq<Body>, timeStep: real, sqrt: real -> real) returns (ok: bool)
    requires Distinct(bodies) && IsSqrt(sqrt)
    modifies bodies
    ensures ok <==> FirstClash(ParticlesOf(old(Snapshot(bodies)))) == |bodies|
    ensures Snapshot(bodies) == VelPass(old(Snapshot(bodies)), timeStep, G, sqrt)
    ensures forall i :: 0 <= i < |bodies| ==> bodies[i].color == old(bodies[i].color)
  {
    ghost var s0 := Snapshot(bodies);
    ghost var ps := ParticlesOf(s0);
    ghost var k := FirstClash(ps);
    ghost var vs := Accelerations(ps, G, sqrt);
    for i := 0 to |bodies|
      invariant i <= k
      invariant forall j :: 0 <= j < |bodies| ==> bodies[j].pos == s0[j].pos && bodies[j].mass == s0[j].mass
      invariant forall j :: 0 <= j < |bodies| ==> bodies[j].color == old(bodies[j].color)
      invariant forall j :: 0 <= j < i ==> bodies[j].vel == AddScaled(s0[j].vel, vs[j], timeStep)
      invariant forall j :: i <= j < |bodies| ==> bodies[j].vel == s0[j].vel
    {
      var a := GetAccell(bodies, i, G, sqrt, ps);
      ClashAt(ps, i, G, sqrt);
      if a.DivisionByZero? {
        KickedByAccelerations(s0, Snapshot(bodies), vs, timeStep, G, sqrt);
        return false;
      }
      var bod := bodies[i];
      assert forall j :: 0 <= j < |bodies| && j != i ==> bodies[j] != bod;
      bod.vel := AddScaled(bod.vel, a.value, timeStep);
    }
    KickedByAccelerations(s0, Snapshot(bodies), vs, timeStep, G, sqrt);
    return true;
  }

  /** `update_pos(bodies, time_step)`: moves each body by its current
      velocity. */
  method UpdatePos(bodies: seq<Body>, timeStep: real)
    requires Distinct(bodies)
    modifies bodies
    ensures Snapshot(bodies) == PosPass(old(Snapshot(bodies)), timeStep)
    ensures forall i :: 0 <= i < |bodies| ==> bodies[i].color == old(bodies[i].color)
  {
    ghost var s0 := Snapshot(bodies);
    ghost var s1 := PosPass(s0, timeStep);
    for i := 0 to |bodies|
      invariant forall j :: 0 <= j < |bodies| ==> bodies[j].vel == s0[j].vel && bodies[j].mass == s0[j].mass
      invariant forall j :: 0 <= j < |bodies| ==> bodies[j].color == old(bodies[j].color)
      invariant forall j :: 0 <= j < i ==> bodies[j].pos == s1[j].pos
      invariant forall j :: i <= j < |bodies| ==> bodies[j].pos == s0[j].pos
    {
      var bod := bodies[i];
      assert forall j :: 0 <= j < |bodies| && j != i ==> bodies[j] != bod;
      bod.pos := AddScaled(bod.pos, bod.vel, timeStep);
    }
    assert Snapshot(bodies) == s1;
  }
}
