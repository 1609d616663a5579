/** `run_simulation`: the step loop, the position history it records in a
    preallocated array, and the trail window it reads back for drawing. */
module Simulation {
  import opened Vectors
  import opened Forces
  import opened Bodies
  import opened Integrator

  /** The trail drawn behind each body covers at most this many past steps. */
  const TrailLength: nat := 50

  /** `n` steps of the loop of `run_simulation` from the states `ss`; a
      division by zero if any of them raises. */
  function Evolve(ss: seq<State>, n: nat, dt: real, g: real, sqrt: real -> real): (r: Result<seq<State>>)
    requires IsSqrt(sqrt)
    ensures r.Ok? ==> |r.value| == |ss|
    decreases n
  {
    if n == 0 then Ok(ss)
    else match Evolve(ss, n - 1, dt, g, sqrt)
      case DivisionByZero => DivisionByZero
      case Ok(ts) => Step(ts, dt, g, sqrt)
  }

  /** The `n`-th step starts from the states the first `n - 1` reached. */
  lemma EvolveNext(ss: seq<State>, n: nat, ts: seq<State>, dt: real, g: real, sqrt: real -> real)
    requires IsSqrt(sqrt) && n > 0 && Evolve(ss, n - 1, dt, g, sqrt) == Ok(ts)
    ensures Evolve(ss, n, dt, g, sqrt) == Step(ts, dt, g, sqrt)
  {
  }

  /** Once a step has raised, the run stays failed. */
  lemma {:induction false} EvolveStaysFailed(ss: seq<State>, n: nat, m: nat, dt: real, g: real, sqrt: real -> real)
    requires IsSqrt(sqrt) && n <= m && Evolve(ss, n, dt, g, sqrt).DivisionByZero?
    ensures Evolve(ss, m, dt, g, sqrt).DivisionByZero?
    decreases m - n
  {
    if n < m {
      EvolveStaysFailed(ss, n + 1, m, dt, g, sqrt);
    }
  }

  /** Masses never change: a run of any length that does not raise ends
      with every body's starting mass. */
  lemma {:induction false} EvolveKeepsMasses(ss: seq<State>, n: nat, ts: seq<State>, dt: real, g: real, sqrt: real -> real)
    requires IsSqrt(sqrt) && Evolve(ss, n, dt, g, sqrt) == Ok(ts)
    ensures |ts| == |ss| && forall i :: 0 <= i < |ss| ==> ts[i].mass == ss[i].mass
    decreases n
  {
    if n > 0 {
      var prev := Evolve(ss, n - 1, dt, g, sqrt).value;
      EvolveKeepsMasses(ss, n - 1, prev, dt, g, sqrt);
      EvolveNext(ss, n, prev, dt, g, sqrt);
      StepKeepsMasses(prev, dt, g, sqrt);
    }
  }

  /** A step that does not raise keeps every mass. */
  lemma StepKeepsMasses(ts: seq<State>, dt: real, g: real, sqrt: real -> real)
    requires IsSqrt(sqrt) && Step(ts, dt, g, sqrt).Ok?
    ensures |Step(ts, dt, g, sqrt).value| == |ts|
    ensures forall i :: 0 <= i < |ts| ==> Step(ts, dt, g, sqrt).value[i].mass == ts[i].mass
  {
    VelPassFrame(ts, dt, g, sqrt);
    PosPassFrame(VelPass(ts, dt, g, sqrt), dt);
  }

  /** A body that has moved in a straight line for time `t`. */
  function Drifted(s: State, t: real): State {
    s.(pos := AddScaled(s.pos, s.vel, t))
  }

  /** A lone body feels no pull, so it drifts in a straight line: after
      `n` steps it sits at `pos + n * dt * vel` with its velocity unchanged. */
  lemma LoneBodyDrifts(s: State, n: nat, dt: real, g: real, sqrt: real -> real)
    requires IsSqrt(sqrt)
    ensures Evolve([s], n, dt, g, sqrt) == Ok([Drifted(s, n as real * dt)])
  {
    LoneBodySteps(s, n, dt, g, sqrt);
    StraightLine(s, n, dt);
  }

  /** `n` drifts of a body for time `dt` each. */
  function Drifts(s: State, n: nat, dt: real): State
    decreases n
  {
    if n == 0 then s else Drifted(Drifts(s, n - 1, dt), dt)
  }

  /** Each step of a lone body is one drift. */
  lemma {:induction false} LoneBodySteps(s: State, n: nat, dt: real, g: real, sqrt: real -> real)
    requires IsSqrt(sqrt)
    ensures Evolve([s], n, dt, g, sqrt) == Ok([Drifts(s, n, dt)])
    decreases n
  {
    if n > 0 {
      LoneBodySteps(s, n - 1, dt, g, sqrt);
      var t := Drifts(s, n - 1, dt);
      EvolveNext([s], n, [t], dt, g, sqrt);
      LoneStep(t, dt, g, sqrt);
    }
  }

  /** `n` drifts for `dt` are one drift for `n * dt`. */
  lemma {:induction false} StraightLine(s: State, n: nat, dt: real)
    ensures Drifts(s, n, dt) == Drifted(s, n as real * dt)
    decreases n
  {
    if n == 0 {
      assert n as real * dt == 0.0;
      assert Drifted(s, 0.0) == s;
    } else {
      var before := (n - 1) as real * dt;
      StraightLine(s, n - 1, dt);
      assert Drifts(s, n, dt) == Drifted(Drifted(s, before), dt);
      DriftTwice(s, before, dt);
      EarlierTime(n, dt);
      assert before + dt == n as real * dt;
    }
  }

  /** `(n - 1) * dt + dt == n * dt`. */
  lemma EarlierTime(n: nat, dt: real)
    requires n > 0
    ensures (n - 1) as real * dt + dt == n as real * dt
  {
  }

  /** One step of a lone body keeps its velocity and moves it by `vel * dt`. */
  lemma LoneStep(t: State, dt: real, g: real, sqrt: real -> real)
    requires IsSqrt(sqrt)
    ensures Step([t], dt, g, sqrt) == Ok([Drifted(t, dt)])
  {
    var ps := ParticlesOf([t]);
    assert ps == [Particle(t.pos, t.mass)];
    LoneBody(Particle(t.pos, t.mass), g, sqrt);
    assert FirstClash(ps) == 1 by {
      assert !Coincident(ps, 0);
    }
    var kicked := VelPass([t], dt, g, sqrt);
    assert kicked[0] == Kick(t, Zero, dt) == t;
    assert kicked == [t];
    var moved := PosPass([t], dt);
    assert moved[0] == Drifted(t, dt);
    assert moved == [Drifted(t, dt)];
    assert Step([t], dt, g, sqrt) == Ok(PosPass(kicked, dt));
  }

  /** Drifting for `a` and then for `b` is drifting for `a + b`. */
  lemma DriftTwice(s: State, a: real, b: real)
    ensures Drifted(Drifted(s, a), b) == Drifted(s, a + b)
  {
    var l, r := Drifted(Drifted(s, a), b), Drifted(s, a + b);
    DriftComponent(s.pos.x, s.vel.x, a, b, s.vel.x * a, s.vel.x * b, s.vel.x * (a + b));
    DriftComponent(s.pos.y, s.vel.y, a, b, s.vel.y * a, s.vel.y * b, s.vel.y * (a + b));
    assert l.pos.x == r.pos.x && l.pos.y == r.pos.y;
  }

  /** One component of `DriftTwice`, with the products `i == v * a`,
      `j == v * b` and `k == v * (a + b)` passed in. */
  lemma DriftComponent(p: real, v: real, a: real, b: real, i: real, j: real, k: real)
    requires i == v * a && j == v * b && k == v * (a + b)
    ensures (p + i) + j == p + k
  {
    assert k == i + j;
  }

  /** `max(0, i - 50)`: the first step of the trail drawn at step `i`. */
  function TrailStart(i: nat): (s: nat)
    ensures s <= i
    ensures i - s == if i < TrailLength then i else TrailLength
  {
    if i - TrailLength > 0 then i - TrailLength else 0
  }

  /** The trail window at step `i` holds at most 50 slots, starts at slot 0
      for the first 50 steps, and from step 50 on slides forward by one slot
      per step. */
  lemma TrailWindow(i: nat)
    ensures i - TrailStart(i) <= TrailLength && (i <= TrailLength ==> TrailStart(i) == 0)
    ensures i >= TrailLength ==> TrailStart(i + 1) == TrailStart(i) + 1
  {
  }

  /** `hists[j, lo:hi]`, for `0 <= lo <= hi <= max_steps`. */
  function HistSlice(hists: array2<Vec>, j: nat, lo: nat, hi: nat): (s: seq<Vec>)
    reads hists
    requires j < hists.Length0 && lo <= hi <= hists.Length1
    ensures |s| == hi - lo
    ensures forall k :: 0 <= k < |s| ==> s[k] == hists[j, lo + k]
  {
    seq(hi - lo, k requires 0 <= k < hi - lo reads hists => hists[j, lo + k])
  }

  /** The trail drawn for body `j` at step `i` of a run that went through
      the states `history`: its positions at the steps
      `max(0, i - 50) .. i - 1`. */
  function Trail(history: seq<seq<State>>, i: nat, j: nat): (t: seq<Vec>)
    requires i < |history| && forall k :: 0 <= k < |history| ==> j < |history[k]|
    ensures |t| == if i < TrailLength then i else TrailLength
  {
    seq(i - TrailStart(i), k requires 0 <= k < i - TrailStart(i) => history[TrailStart(i) + k][j].pos)
  }

  /** The slice of the history array read at step `i` is the trail, once
      the slots before `i` hold the positions the run went through. */
  lemma TrailFromHistory(history: seq<seq<State>>, hists: array2<Vec>, i: nat)
    requires i < |history| && i < hists.Length1
    requires forall k :: 0 <= k < |history| ==> |history[k]| == hists.Length0
    requires forall j, k :: 0 <= j < hists.Length0 && 0 <= k < i ==> hists[j, k] == history[k][j].pos
    ensures forall j :: 0 <= j < hists.Length0 ==> HistSlice(hists, j, TrailStart(i), i) == Trail(history, i, j)
  {
  }

  /** The drawing loop of step `i` of `run_simulation`, without the drawing:
      `hists[j, i, :] = b.pos` for every body, each followed by the read of
      the trail `hists[j, max(0, i-50):i]`. `cur` is the bodies' state. */
  method RecordPositions(bodies: seq<Body>, hists: array2<Vec>, i: nat, ghost cur: seq<State>) returns (frame: seq<seq<Vec>>)
    requires hists.Length0 == |bodies| && i < hists.Length1
    requires |cur| == |bodies| && forall j :: 0 <= j < |bodies| ==> cur[j].pos == bodies[j].pos
    modifies hists
    ensures forall j, k :: 0 <= j < |bodies| && 0 <= k < hists.Length1 ==>
      hists[j, k] == if k == i then cur[j].pos else old(hists[j, k])
    ensures |frame| == |bodies|
    ensures forall j :: 0 <= j < |bodies| ==> frame[j] == HistSlice(hists, j, TrailStart(i), i)
  {
    frame := [];
    for j := 0 to |bodies|
      invariant forall jj, k :: 0 <= jj < |bodies| && 0 <= k < hists.Length1 ==>
        hists[jj, k] == if k == i && jj < j then cur[jj].pos else old(hists[jj, k])
      invariant |frame| == j
      invariant forall jj :: 0 <= jj < j ==> frame[jj] == HistSlice(hists, jj, TrailStart(i), i)
    {
      hists[j, i] := bodies[j].pos;
      frame := frame + [HistSlice(hists, j, TrailStart(i), i)];
    }
  }

  /** Every state of `history` has `rows` bodies. */
  predicate Rows(history: seq<seq<State>>, rows: nat) {
    forall k :: 0 <= k < |history| ==> |history[k]| == rows
  }

  /** The first `n` columns of `hists` hold the positions of the first `n`
      states of `history`; the rest are still zero. */
  predicate Recorded(hists: array2<Vec>, history: seq<seq<State>>, n: nat)
    reads hists
  {
    n <= |history| && Rows(history, hists.Length0) &&
    forall j, k :: 0 <= j < hists.Length0 && 0 <= k < hists.Length1 ==>
      hists[j, k] == if k < n then history[k][j].pos else Zero
  }

  /** The first `n` frames of `trails` are the trails of `history`. */
  predicate Drawn(trails: seq<seq<seq<Vec>>>, history: seq<seq<State>>, n: nat, rows: nat) {
    n <= |history| && Rows(history, rows) && |trails| == n &&
    forall k :: 0 <= k < n ==>
      |trails[k]| == rows && forall j :: 0 <= j < rows ==> trails[k][j] == Trail(history, k, j)
  }

  /** The trails read at step `i` extend the frames drawn so far. */
  lemma DrawnAppend(trails: seq<seq<seq<Vec>>>, history: seq<seq<State>>, i: nat, frame: seq<seq<Vec>>, rows: nat)
    requires Drawn(trails, history, i, rows) && i < |history|
    requires |frame| == rows && forall j :: 0 <= j < rows ==> frame[j] == Trail(history, i, j)
    ensures Drawn(trails + [frame], history, i + 1, rows)
  {
    assert forall k :: 0 <= k < i ==> (trails + [frame])[k] == trails[k];
  }

  /** A trail only looks back, so a longer history leaves it alone. */
  lemma TrailPrefix(history: seq<seq<State>>, next: seq<State>, i: nat, j: nat)
    requires i < |history| && forall k :: 0 <= k < |history| ==> j < |history[k]|
    requires j < |next|
    ensures Trail(history + [next], i, j) == Trail(history, i, j)
  {
    assert forall k :: 0 <= k < |history| ==> (history + [next])[k] == history[k];
  }

  /** Appending a state keeps what the array and the trails already hold. */
  lemma HistoryExtends(hists: array2<Vec>, trails: seq<seq<seq<Vec>>>, history: seq<seq<State>>, next: seq<State>, n: nat)
    requires Recorded(hists, history, n) && Drawn(trails, history, n, hists.Length0)
    requires |next| == hists.Length0
    ensures Recorded(hists, history + [next], n) && Drawn(trails, history + [next], n, hists.Length0)
  {
    var longer := history + [next];
    assert forall k :: 0 <= k < |history| ==> longer[k] == history[k];
    forall k, j | 0 <= k < n && 0 <= j < hists.Length0
      ensures trails[k][j] == Trail(longer, k, j)
    {
      TrailPrefix(history, next, k, j);
    }
  }

  /** After both passes of a step with no clash, the bodies hold the next
      states of the run. */
  lemma StepByPasses(ss: seq<State>, ts: seq<State>, dt: real, g: real, sqrt: real -> real)
    requires IsSqrt(sqrt) && FirstClash(ParticlesOf(ss)) == |ss|
    requires ts == PosPass(VelPass(ss, dt, g, sqrt), dt)
    ensures Step(ss, dt, g, sqrt) == Ok(ts)
  {
  }

  /** One pass of the loop of `run_simulation` at step `i`, without the
      drawing: record every position in column `i` of `hists` and read the
      trails, then `update_vel` and, unless that raised, `update_pos`.
      `history` is the run so far, ending in the bodies' current state. */
  method Advance(bodies: seq<Body>, hists: array2<Vec>, i: nat, timeStep: real, sqrt: real -> real, ghost history: seq<seq<State>>)
    returns (frame: seq<seq<Vec>>, ok: bool)
    requires Distinct(bodies) && IsSqrt(sqrt)
    requires hists.Length0 == |bodies| && i < hists.Length1
    requires |history| == i + 1 && Snapshot(bodies) == history[i] && Recorded(hists, history, i)
    modifies bodies, hists
    ensures Recorded(hists, history, i + 1)
    ensures |frame| == |bodies| && forall j :: 0 <= j < |bodies| ==> frame[j] == Trail(history, i, j)
    ensures ok <==> Step(history[i], timeStep, G, sqrt).Ok?
    ensures ok ==> Step(history[i], timeStep, G, sqrt) == Ok(Snapshot(bodies))
    ensures !ok ==> Snapshot(bodies) == VelPass(history[i], timeStep, G, sqrt)
    ensures forall j :: 0 <= j < |bodies| ==> bodies[j].color == old(bodies[j].color)
  {
    ghost var cur := history[i];
    frame := RecordPositions(bodies, hists, i, cur);
    assert Recorded(hists, history, i + 1);
    TrailFromHistory(history, hists, i);
    label Kept:
    ok := UpdateVel(bodies, timeStep, sqrt);
    if ok {
      UpdatePos(bodies, timeStep);
      StepByPasses(cur, Snapshot(bodies), timeStep, G, sqrt);
    }
    assert unchanged@Kept(hists);
  }

  /** The run so far, extended by one step that did not raise, is still the
      run: `history[k]` is the state after `k` steps for every `k`. */
  lemma EvolveHistory(s0: seq<State>, history: seq<seq<State>>, next: seq<State>, dt: real, g: real, sqrt: real -> real)
    requires IsSqrt(sqrt) && |history| > 0
    requires forall k {:trigger Evolve(s0, k, dt, g, sqrt)} :: 0 <= k < |history| ==>
      Evolve(s0, k, dt, g, sqrt) == Ok(history[k])
    requires Step(history[|history| - 1], dt, g, sqrt) == Ok(next)
    ensures forall k {:trigger Evolve(s0, k, dt, g, sqrt)} :: 0 <= k < |history| + 1 ==>
      Evolve(s0, k, dt, g, sqrt) == Ok((history + [next])[k])
  {
    var n := |history|;
    EvolveNext(s0, n, history[n - 1], dt, g, sqrt);
    forall k | 0 <= k < n + 1
      ensures Evolve(s0, k, dt, g, sqrt) == Ok((history + [next])[k])
    {
      if k < n {
        assert (history + [next])[k] == history[k];
      }
    }
  }

  /** `run_simulation(bodies, time_step, max_steps)` without the drawing.
      Step `i` first records every position in `hists[j, i]` and takes the
      trail `hists[j, max(0, i-50):i]`, then calls `update_vel` and
      `update_pos`. `history[k]` is the state before step `k`, and
      `trails[i][j]` the trail handed to the plotter for body `j` at step
      `i`. When `update_vel` raises, the run ends there: `ok` is false and
      `steps` counts the steps completed before. */
  method RunSimulation(bodies: seq<Body>, timeStep: real, maxSteps: nat, sqrt: real -> real)
    returns (hists: array2<Vec>, trails: seq<seq<seq<Vec>>>, steps: nat, ok: bool, ghost history: seq<seq<State>>)
    requires Distinct(bodies) && IsSqrt(sqrt)
    modifies bodies
    ensures fresh(hists) && hists.Length0 == |bodies| && hists.Length1 == maxSteps
    ensures steps <= maxSteps && (ok <==> steps == maxSteps)
    ensures |history| == steps + 1
    ensures forall k :: 0 <= k < |history| ==> |history[k]| == |bodies|
    ensures forall k {:trigger Evolve(old(Snapshot(bodies)), k, timeStep, G, sqrt)} :: 0 <= k < |history| ==>
      Evolve(old(Snapshot(bodies)), k, timeStep, G, sqrt) == Ok(history[k])
    ensures ok ==> Snapshot(bodies) == history[steps]
    ensures !ok ==> Step(history[steps], timeStep, G, sqrt).DivisionByZero? &&
                    Snapshot(bodies) == VelPass(history[steps], timeStep, G, sqrt)
    ensures var recorded := if ok then steps else steps + 1;
            Recorded(hists, history, recorded) && Drawn(trails, history, recorded, |bodies|)
    ensures forall j :: 0 <= j < |bodies| ==> bodies[j].color == old(bodies[j].color)
  {
    ghost var s0 := Snapshot(bodies);
    hists := new Vec[|bodies|, maxSteps]((j, k) => Zero);
    trails := [];
    history := [s0];
    var i := 0;
    while i < maxSteps
      invariant i <= maxSteps && |history| == i + 1
      invariant forall k {:trigger Evolve(s0, k, timeStep, G, sqrt)} :: 0 <= k < |history| ==>
        Evolve(s0, k, timeStep, G, sqrt) == Ok(history[k])
      invariant Snapshot(bodies) == history[i]
      invariant forall j :: 0 <= j < |bodies| ==> bodies[j].color == old(bodies[j].color)
      invariant Recorded(hists, history, i) && Drawn(trails, history, i, |bodies|)
    {
      var frame;
      frame, ok := Advance(bodies, hists, i, timeStep, sqrt, history);
      DrawnAppend(trails, history, i, frame, |bodies|);
      trails := trails + [frame];
      if !ok {
        steps := i;
        return;
      }
      ghost var next := Snapshot(bodies);
      EvolveHistory(s0, history, next, timeStep, G, sqrt);
      HistoryExtends(hists, trails, history, next, i + 1);
      history := history + [next];
      i := i + 1;
    }
    steps := i;
    ok := true;
  }
}
