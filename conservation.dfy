/** What one step does to the total momentum and to the mass moment (the
    centre of mass times the total mass) when no acceleration is clamped,
    and a symmetric pair of equal masses, whose centre of mass stays at the
    origin over a whole run, clamped or not. */
module Conservation {
  import opened Vectors
  import opened Forces
  import opened Bodies
  import opened Integrator
  import opened Simulation

  /** `sum(m_i * vel_i)` over the first `m` bodies. */
  function Momentum(ss: seq<State>, m: nat): Vec
    requires m <= |ss|
  {
    if m == 0 then Zero else Add(Momentum(ss, m - 1), Scale(ss[m - 1].mass, ss[m - 1].vel))
  }

  /** `sum(m_i * pos_i)` over the first `m` bodies. */
  function MassMoment(ss: seq<State>, m: nat): Vec
    requires m <= |ss|
  {
    if m == 0 then Zero else Add(MassMoment(ss, m - 1), Scale(ss[m - 1].mass, ss[m - 1].pos))
  }

  /** `sum(m_i * a_i)` over the first `m` bodies. */
  function Impulse(ss: seq<State>, accs: seq<Vec>, m: nat): Vec
    requires |accs| == |ss| && m <= |ss|
  {
    if m == 0 then Zero else Add(Impulse(ss, accs, m - 1), Scale(ss[m - 1].mass, accs[m - 1]))
  }

  /** Kicking every velocity by `a_i * dt` adds `dt` times the impulse to
      the momentum. */
  lemma {:induction false} KicksAddImpulse(ss: seq<State>, ts: seq<State>, accs: seq<Vec>, m: nat, dt: real)
    requires |ts| == |ss| && |accs| == |ss| && m <= |ss|
    requires forall i :: 0 <= i < |ss| ==> ts[i].mass == ss[i].mass && ts[i].vel == AddScaled(ss[i].vel, accs[i], dt)
    ensures Momentum(ts, m) == AddScaled(Momentum(ss, m), Impulse(ss, accs, m), dt)
    decreases m
  {
    if m > 0 {
      var i := m - 1;
      KicksAddImpulse(ss, ts, accs, i, dt);
      ScaleAddScaled(ss[i].mass, ss[i].vel, accs[i], dt);
      AddScaledAdd(Momentum(ss, i), Scale(ss[i].mass, ss[i].vel), Impulse(ss, accs, i), Scale(ss[i].mass, accs[i]), dt);
    }
  }

  /** Moving every body by `vel_i * dt` adds `dt` times the momentum to the
      mass moment. */
  lemma {:induction false} DriftsAddMomentum(ss: seq<State>, ts: seq<State>, m: nat, dt: real)
    requires |ts| == |ss| && m <= |ss|
    requires forall i :: 0 <= i < |ss| ==> ts[i].mass == ss[i].mass && ts[i].pos == AddScaled(ss[i].pos, ss[i].vel, dt)
    ensures MassMoment(ts, m) == AddScaled(MassMoment(ss, m), Momentum(ss, m), dt)
    decreases m
  {
    if m > 0 {
      var i := m - 1;
      DriftsAddMomentum(ss, ts, i, dt);
      ScaleAddScaled(ss[i].mass, ss[i].pos, ss[i].vel, dt);
      AddScaledAdd(MassMoment(ss, i), Scale(ss[i].mass, ss[i].pos), Momentum(ss, i), Scale(ss[i].mass, ss[i].vel), dt);
    }
  }

  /** With the unclamped pull sums as accelerations, the impulse of the
      first `m` bodies is the sum of their rows of forces. */
  lemma {:induction false} ImpulseIsTotal(ss: seq<State>, accs: seq<Vec>, m: nat, g: real, sqrt: real -> real)
    requires IsSqrt(sqrt) && AllSeparated(ParticlesOf(ss)) && |accs| == |ss| && m <= |ss|
    requires forall i :: 0 <= i < |ss| ==> Separated(ParticlesOf(ss), i, |ss|) && accs[i] == PullSum(ParticlesOf(ss), i, |ss|, g, sqrt)
    ensures Impulse(ss, accs, m) == Total(ParticlesOf(ss), m, |ss|, g, sqrt)
    decreases m
  {
    if m > 0 {
      ImpulseIsTotal(ss, accs, m - 1, g, sqrt);
      RowIsWeightedPullSum(ParticlesOf(ss), m - 1, |ss|, g, sqrt);
    }
  }

  /** No body's pull sum reaches the clamp. */
  predicate Unclamped(ps: seq<Particle>, g: real, sqrt: real -> real)
    requires IsSqrt(sqrt) && AllSeparated(ps)
  {
    forall i :: 0 <= i < |ps| ==>
      Separated(ps, i, |ps|) &&
      Abs(PullSum(ps, i, |ps|, g, sqrt).x) <= Limit && Abs(PullSum(ps, i, |ps|, g, sqrt).y) <= Limit
  }

  /** Without a clash and below the clamp, every acceleration is the plain
      pull sum. */
  lemma UnclampedAccel(ps: seq<Particle>, g: real, sqrt: real -> real)
    requires IsSqrt(sqrt) && AllSeparated(ps) && Unclamped(ps, g, sqrt)
    ensures FirstClash(ps) == |ps|
    ensures forall i :: 0 <= i < |ps| ==> AccelOf(ps, i, g, sqrt) == PullSum(ps, i, |ps|, g, sqrt)
  {
    NoClashIffAllSeparated(ps);
  }

  /** By the third law, `update_vel` keeps the total momentum when no two
      bodies coincide and no acceleration is clamped. */
  lemma MomentumConserved(ss: seq<State>, dt: real, g: real, sqrt: real -> real)
    requires IsSqrt(sqrt) && AllSeparated(ParticlesOf(ss)) && Unclamped(ParticlesOf(ss), g, sqrt)
    ensures Momentum(VelPass(ss, dt, g, sqrt), |ss|) == Momentum(ss, |ss|)
  {
    var ps := ParticlesOf(ss);
    NoClashIffAllSeparated(ps);
    VelPassFrame(ss, dt, g, sqrt);
    UnclampedAccel(ps, g, sqrt);
    var accs := seq(|ss|, i requires 0 <= i < |ss| => AccelOf(ps, i, g, sqrt));
    KicksAddImpulse(ss, VelPass(ss, dt, g, sqrt), accs, |ss|, dt);
    ImpulseIsTotal(ss, accs, |ss|, g, sqrt);
    TotalVanishes(ps, |ps|, g, sqrt);
  }

  /** One unclamped step keeps the momentum and moves the mass moment by
      `dt` times the momentum: the centre of mass drifts in a straight
      line at constant speed. */
  lemma StepMoments(ss: seq<State>, dt: real, g: real, sqrt: real -> real)
    requires IsSqrt(sqrt) && AllSeparated(ParticlesOf(ss)) && Unclamped(ParticlesOf(ss), g, sqrt)
    ensures Step(ss, dt, g, sqrt).Ok?
    ensures Momentum(Step(ss, dt, g, sqrt).value, |ss|) == Momentum(ss, |ss|)
    ensures MassMoment(Step(ss, dt, g, sqrt).value, |ss|) == AddScaled(MassMoment(ss, |ss|), Momentum(ss, |ss|), dt)
  {
    var vs := VelPass(ss, dt, g, sqrt);
    StepIsEulerCromer(ss, dt, g, sqrt);
    MomentumConserved(ss, dt, g, sqrt);
    VelPassFrame(ss, dt, g, sqrt);
    PosPassFrame(vs, dt);
    MomentumUnmoved(vs, PosPass(vs, dt), |ss|);
    DriftsAddMomentum(vs, PosPass(vs, dt), |ss|, dt);
    MassMomentUnkicked(ss, vs, |ss|);
  }

  /** The momentum depends on masses and velocities only. */
  lemma {:induction false} MomentumUnmoved(ss: seq<State>, ts: seq<State>, m: nat)
    requires |ts| == |ss| && m <= |ss|
    requires forall i :: 0 <= i < |ss| ==> ts[i].mass == ss[i].mass && ts[i].vel == ss[i].vel
    ensures Momentum(ts, m) == Momentum(ss, m)
    decreases m
  {
    if m > 0 {
      MomentumUnmoved(ss, ts, m - 1);
    }
  }

  /** The mass moment depends on masses and positions only. */
  lemma {:induction false} MassMomentUnkicked(ss: seq<State>, ts: seq<State>, m: nat)
    requires |ts| == |ss| && m <= |ss|
    requires forall i :: 0 <= i < |ss| ==> ts[i].mass == ss[i].mass && ts[i].pos == ss[i].pos
    ensures MassMoment(ts, m) == MassMoment(ss, m)
    decreases m
  {
    if m > 0 {
      MassMomentUnkicked(ss, ts, m - 1);
    }
  }

  /** Two bodies of mass `m` placed point-symmetrically about the origin,
      with opposite velocities. */
  predicate Mirrored(ss: seq<State>, m: real) {
    |ss| == 2 && ss[0].mass == m && ss[1].mass == m &&
    ss[1].pos == Neg(ss[0].pos) && ss[1].vel == Neg(ss[0].vel)
  }

  /** A mirrored pair has its centre of mass at the origin and no momentum. */
  lemma MirroredMoments(ss: seq<State>, m: real)
    requires Mirrored(ss, m)
    ensures MassMoment(ss, 2) == Zero && Momentum(ss, 2) == Zero
  {
    assert MassMoment(ss, 1) == Add(Zero, Scale(m, ss[0].pos));
    assert MassMoment(ss, 2) == Add(MassMoment(ss, 1), Scale(m, Neg(ss[0].pos)));
    assert Momentum(ss, 1) == Add(Zero, Scale(m, ss[0].vel));
    assert Momentum(ss, 2) == Add(Momentum(ss, 1), Scale(m, Neg(ss[0].vel)));
  }

  /** The two bodies of a mirrored pair away from the origin get opposite
      accelerations, clamped or not. */
  lemma MirroredAccels(ss: seq<State>, m: real, g: real, sqrt: real -> real)
    requires IsSqrt(sqrt) && Mirrored(ss, m) && ss[0].pos != Zero
    ensures AllSeparated(ParticlesOf(ss)) && FirstClash(ParticlesOf(ss)) == 2
    ensures AccelOf(ParticlesOf(ss), 1, g, sqrt) == Neg(AccelOf(ParticlesOf(ss), 0, g, sqrt))
  {
    var p := ss[0].pos;
    var ps := ParticlesOf(ss);
    assert ps == [Particle(p, m), Particle(Neg(p), m)];
    assert Neg(p) != p;
    NoClashIffAllSeparated(ps);
    assert PullSum(ps, 0, 2, g, sqrt) == Pull(p, Particle(Neg(p), m), g, sqrt);
    assert PullSum(ps, 1, 2, g, sqrt) == Pull(Neg(p), Particle(p, m), g, sqrt);
    EqualMassPulls(p, Neg(p), m, g, sqrt);
    ClampNeg(PullSum(ps, 0, 2, g, sqrt));
  }

  /** A step of a mirrored pair raises exactly when both bodies sit at the
      origin, and otherwise yields a mirrored pair again. */
  lemma MirroredStep(ss: seq<State>, m: real, dt: real, g: real, sqrt: real -> real)
    requires IsSqrt(sqrt) && Mirrored(ss, m)
    ensures Step(ss, dt, g, sqrt).DivisionByZero? <==> ss[0].pos == Zero
    ensures Step(ss, dt, g, sqrt).Ok? ==> Mirrored(Step(ss, dt, g, sqrt).value, m)
  {
    if ss[0].pos == Zero {
      MirroredClash(ss, m, dt, g, sqrt);
    } else {
      MirroredStepOk(ss, m, dt, g, sqrt);
    }
  }

  /** A mirrored pair at the origin has both bodies on one point. */
  lemma MirroredClash(ss: seq<State>, m: real, dt: real, g: real, sqrt: real -> real)
    requires IsSqrt(sqrt) && Mirrored(ss, m) && ss[0].pos == Zero
    ensures Step(ss, dt, g, sqrt).DivisionByZero?
  {
    var ps := ParticlesOf(ss);
    assert ps[1].pos == ps[0].pos;
    StepFailsIffCoincident(ss, dt, g, sqrt);
  }

  /** A mirrored pair away from the origin steps to a mirrored pair. */
  lemma MirroredStepOk(ss: seq<State>, m: real, dt: real, g: real, sqrt: real -> real)
    requires IsSqrt(sqrt) && Mirrored(ss, m) && ss[0].pos != Zero
    ensures Step(ss, dt, g, sqrt).Ok? && Mirrored(Step(ss, dt, g, sqrt).value, m)
  {
    var ps := ParticlesOf(ss);
    MirroredAccels(ss, m, g, sqrt);
    StepIsEulerCromer(ss, dt, g, sqrt);
    MirroredEuler(ss, Step(ss, dt, g, sqrt).value, m, AccelOf(ps, 0, g, sqrt), AccelOf(ps, 1, g, sqrt), dt);
  }

  /** Kicking a mirrored pair by opposite accelerations and then moving it
      gives a mirrored pair. */
  lemma MirroredEuler(ss: seq<State>, ts: seq<State>, m: real, a0: Vec, a1: Vec, dt: real)
    requires Mirrored(ss, m) && |ts| == 2 && a1 == Neg(a0)
    requires ts[0].mass == ss[0].mass && ts[1].mass == ss[1].mass
    requires ts[0].vel == AddScaled(ss[0].vel, a0, dt) && ts[1].vel == AddScaled(ss[1].vel, a1, dt)
    requires ts[0].pos == AddScaled(ss[0].pos, ts[0].vel, dt) && ts[1].pos == AddScaled(ss[1].pos, ts[1].vel, dt)
    ensures Mirrored(ts, m)
  {
    NegAddScaled(ss[0].vel, a0, dt);
    NegAddScaled(ss[0].pos, ts[0].vel, dt);
  }

  /** A mirrored pair stays mirrored over any run that does not raise, so its
      centre of mass stays at the origin and its momentum at zero, whether or
      not the clamp fires. */
  lemma {:induction false} MirroredRun(ss: seq<State>, m: real, n: nat, ts: seq<State>, dt: real, g: real, sqrt: real -> real)
    requires IsSqrt(sqrt) && Mirrored(ss, m) && Evolve(ss, n, dt, g, sqrt) == Ok(ts)
    ensures Mirrored(ts, m) && MassMoment(ts, 2) == Zero && Momentum(ts, 2) == Zero
    decreases n
  {
    if n > 0 {
      var prev := Evolve(ss, n - 1, dt, g, sqrt).value;
      MirroredRun(ss, m, n - 1, prev, dt, g, sqrt);
      EvolveNext(ss, n, prev, dt, g, sqrt);
      MirroredStep(prev, m, dt, g, sqrt);
    }
    MirroredMoments(ts, m);
  }
}
