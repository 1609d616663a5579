# N-body Euler-Cromer step, modelled in Dafny

This project models the physics core of `nbody.py`, a small two-dimensional
gravitational N-body simulation. Each body carries a position, a mass, a
velocity and a plot colour. One step of the simulation does three things:

1. It records every body's position in a preallocated history array and
   reads back a trail of at most 50 earlier positions for drawing.
2. `update_vel` kicks each body's velocity, in list order, by the
   acceleration `get_accell` computes for it.
   - `get_accell` sums `G * m / r**3 * (dx, dy)` over the other bodies.
   - It returns the zero vector when a component of the sum exceeds 75 in
     magnitude.
3. `update_pos` moves every body by its new velocity times the time step.

The model is split into modules:

- `Vectors`: two-component real vectors.
- `Forces`: `get_accell` as pure functions of positions and masses.
- `Bodies`: the mutable `body` class and its value snapshots.
- `Integrator`: `get_accell`, `update_vel` and `update_pos` as methods over
  the mutable bodies. Each method is proved equal to a pure function of the
  state before the call.
- `Conservation`: what a step does to total momentum and to the mass moment,
  and the centre of mass of a symmetric equal-mass pair over a whole run.
- `Simulation`: the step loop of `run_simulation`, the history array and the
  trail window.

Modelling decisions:

- Real numbers stand in for floats.
- `math.sqrt` is a parameter `sqrt`. The model only assumes that it returns
  the non-negative square root.
- When another body sits exactly on the target, `r` is zero and the division
  `G * bod.mass / r**3` (nbody.py:26) raises `ZeroDivisionError`. The model
  returns `DivisionByZero` instead of forbidding the case.
- `update_vel` updates bodies one at a time. When it raises, the bodies
  before the clash are already kicked and the rest are untouched. The model
  keeps that partial state.
- `hists[j, i]` is written before `update_vel` (nbody.py:62, 66), so it holds
  body `j`'s position from before step `i`.

## Model

| member | source | states |
|---|---|---|
| Bodies.Body.constructor | nbody.py:9-14 | A new body holds the given position, mass, velocity and colour; the colour defaults to `'cyan'`. |
| Forces.DistanceZero | nbody.py:23 | `r` is zero exactly when the two positions coincide; it is non-negative and its square is `dx**2 + dy**2`. |
| Forces.DistanceSymmetric | nbody.py:23 | `r` is the same measured from either body. |
| Forces.Distance | nbody.py:23 | `r`: the square root of `dx**2 + dy**2`. Its properties are stated by DistanceZero and DistanceSymmetric. |
| Forces.Coefficient | nbody.py:26-27 | The factor `G * bod.mass / r**3`, defined only when the two positions differ. PullAttracts proves it positive for positive `G` and mass; Coupling proves its mass-weighted form symmetric. |
| Forces.Pull | nbody.py:23-27 | One term of the sum: `Coefficient` times `(dx, dy)`, the acceleration one other body gives the target. PullAttracts, PullMagnitude, EqualMassPulls and ThirdLaw state its direction, size and symmetry. |
| Forces.PullSum | nbody.py:21-27 | The running sum `accell` after the loop has visited the first `n` bodies, skipping the target. AccumulateStep and SkipTarget relate it to one loop turn. GetAccell proves the loop computes it. LoneBody, TargetMassIgnored and RowIsWeightedPullSum state its properties. |
| Forces.PullAttracts | nbody.py:24-27 | With positive `G` and `m`, each term of the sum is a positive multiple of the displacement from the target to the other body: along the line joining them, towards the other body. |
| Forces.PullMagnitude | nbody.py:23-27 | Each term of the sum has magnitude `G * m / r**2`, stated squared and without division. |
| Forces.PeakComponent | nbody.py:30 | `max(accell.max(), abs(accell.min()))` is the larger absolute value of the two components. |
| Forces.Clamp | nbody.py:29-31 | The acceleration is returned unchanged when both components are within 75 in magnitude, and is zero otherwise; either way the result is within 75. |
| Forces.Accel | nbody.py:16-31 | `get_accell` raises exactly when some other body shares the target's position; otherwise both components of its result are within [-75, 75]. |
| Forces.LoneBody | nbody.py:21-22 | A body alone in the list gets zero acceleration. |
| Forces.TargetMassIgnored | nbody.py:21-27 | The target's own mass does not enter its acceleration. |
| Forces.ThirdLaw | nbody.py:64-65 | The mass-weighted pulls of two bodies on each other are opposite (Newton's third law). |
| Forces.EqualMassPulls | nbody.py:23-27 | Two bodies of equal mass receive exactly opposite pulls from each other. |
| Forces.ClampNeg | nbody.py:30-31 | An acceleration is clamped exactly when its opposite is, so the clamp commutes with negation. |
| Forces.Coupling | nbody.py:26-27 | `m_p * G m_q / r**3` is symmetric in the two bodies. |
| Forces.RowIsWeightedPullSum | nbody.py:21-27 | The total force on a body is its mass times the sum `get_accell` accumulates. |
| Forces.RowCancelsColumn | nbody.py:64-65 | The forces on body `n` from the bodies before `k` cancel the forces it exerts on them. |
| Forces.TotalExtend | nbody.py:64-65 | Adding one body to every row of the force table adds that body's column. |
| Forces.TotalVanishes | nbody.py:64-65 | All pairwise forces among the bodies add up to zero. |
| Integrator.FirstClash | nbody.py:34-35 | The index at which `update_vel` raises: no body before it coincides with another, and the body at it does. |
| Integrator.NoClashIffAllSeparated | nbody.py:34-35 | `update_vel` reaches the end of the list exactly when all positions are pairwise distinct. |
| Integrator.AccelBeforeClash | nbody.py:34-35 | Every body before the first clash gets an acceleration. |
| Integrator.AccelOf | nbody.py:35 | The value `get_accell` returns for a body before the first clash. |
| Integrator.AccumulateStep | nbody.py:22-27 | One turn of the loop for a body other than the target adds `G*m/r**3 * (dx, dy)` to the running sum. |
| Integrator.SkipTarget | nbody.py:22 | The turn of the loop at the target itself adds nothing. |
| Integrator.GetAccell | nbody.py:16-31 | The loop over the live bodies returns exactly the pure force law `Accel` of their positions and masses, including the division-by-zero case and the clamp. |
| Integrator.ClashAt | nbody.py:34-35 | Up to the first clash, `get_accell` raises exactly at the clash. |
| Integrator.Accelerations | nbody.py:34-35 | There is one acceleration per body, and it is what `get_accell` returns for every body before the first clash. |
| Integrator.StepFailsIffCoincident | nbody.py:54-67 | A step raises exactly when two bodies share a position. |
| Integrator.Kick | nbody.py:36-37 | `bod.vel += a * time_step` on one body, with position and mass kept. InPlaceKick and VelPassFrame state what kicking leaves alone. |
| Integrator.Kicked | nbody.py:34-37 | The bodies after `update_vel` has handled the first `k`: those kicked by the accelerations of the pre-pass snapshot, the rest as they were. InPlaceKick proves that kicking body `k` in place turns `Kicked(ss, k)` into `Kicked(ss, k + 1)`. |
| Integrator.VelPass | nbody.py:33-37 | `update_vel`'s final state: every body before the first clash kicked, the rest untouched, including the partial state left by a raise. VelPassFrame, InPlaceKick and KickedByAccelerations state its properties; UpdateVel ends in it. |
| Integrator.PosPass | nbody.py:40-43 | `update_pos`'s final state: each position moved by the body's current velocity times the time step. PosPassFrame states its properties; UpdatePos ends in it. |
| Integrator.Step | nbody.py:66-67 | One step of the run: `DivisionByZero` if `update_vel` raises, else `PosPass` of `VelPass`. StepFailsIffCoincident, StepIsEulerCromer, StepByPasses and MirroredStep state its properties. |
| Integrator.VelPassFrame | nbody.py:33-37 | `update_vel` keeps every position and mass. It kicks each velocity before the first clash by its acceleration times the time step, and leaves the rest untouched. |
| Integrator.PosPassFrame | nbody.py:40-43 | `update_pos` keeps velocities and masses, and moves each position by the body's current velocity times the time step. |
| Integrator.InPlaceKick | nbody.py:33-37 | Kicking bodies in place leaves the positions and masses that `get_accell` reads unchanged, so each later body is kicked as if all accelerations came from the state before the pass. |
| Integrator.KickedByAccelerations | nbody.py:33-37 | A state that kicks exactly the bodies before the first clash by their accelerations is the `update_vel` result. |
| Integrator.StepIsEulerCromer | nbody.py:66-67 | With no coincident bodies, a step sets each velocity to `vel + a*dt`, then each position to `pos + vel_new*dt`, and keeps the masses. |
| Integrator.UpdateVel | nbody.py:33-37 | The loop reports success exactly when no clash occurs. The bodies end in the `update_vel` state of their starting snapshot, and colours are unchanged. |
| Integrator.UpdatePos | nbody.py:40-43 | The bodies end in the `update_pos` state of their starting snapshot, and colours are unchanged. |
| Conservation.KicksAddImpulse | nbody.py:36-37 | Kicking the velocities adds `dt` times the sum of `m_i * a_i` to the momentum. |
| Conservation.DriftsAddMomentum | nbody.py:42-43 | Moving the positions adds `dt` times the momentum to the mass moment. |
| Conservation.ImpulseIsTotal | nbody.py:21-27 | When nothing is clamped, the sum of `m_i * a_i` equals the sum of all pairwise forces. |
| Conservation.UnclampedAccel | nbody.py:30-31 | Without a clash and below the clamp, each acceleration is the plain pull sum. |
| Conservation.MomentumConserved | nbody.py:64-66 | `update_vel` keeps the total momentum when no two bodies coincide and no acceleration is clamped. |
| Conservation.StepMoments | nbody.py:66-67 | Under the same conditions, a step keeps the momentum and moves the mass moment by `dt` times the momentum. |
| Conservation.MirroredMoments | nbody.py:33-43 | Two equal masses placed symmetrically about the origin with opposite velocities have their centre of mass at the origin and zero momentum. |
| Conservation.MirroredAccels | nbody.py:16-31 | The two bodies of such a pair, away from the origin, get opposite accelerations, whether or not the clamp fires. |
| Conservation.MirroredEuler | nbody.py:33-43 | Kicking such a pair by opposite accelerations and then moving it gives a pair of the same symmetric shape. |
| Conservation.MirroredClash | nbody.py:26 | A mirrored pair at the origin has both bodies on one point, so the step raises. |
| Conservation.MirroredStepOk | nbody.py:66-67 | A mirrored pair away from the origin steps without raising to a mirrored pair with the same mass. |
| Conservation.MirroredStep | nbody.py:66-67 | A step of a mirrored pair raises exactly when both bodies sit at the origin; otherwise it yields a mirrored pair. |
| Conservation.MirroredRun | nbody.py:54-67 | Over any number of steps that do not raise, a mirrored pair stays mirrored, so its centre of mass stays at the origin and its momentum at zero, clamp or no clamp. |
| Conservation.MomentumUnmoved | nbody.py:40-43 | The momentum does not depend on positions. |
| Conservation.MassMomentUnkicked | nbody.py:33-37 | The mass moment does not depend on velocities. |
| Simulation.Evolve | nbody.py:54-67 | `n` steps of the loop from a list of states; a successful run has as many states as bodies. |
| Simulation.EvolveNext | nbody.py:54 | Step `n` starts from the state that the first `n - 1` steps reached. |
| Simulation.EvolveStaysFailed | nbody.py:54-67 | Once a step has raised, every longer run has raised too. |
| Simulation.EvolveKeepsMasses | nbody.py:33-43 | A run of any length that does not raise ends with the same bodies, each with its starting mass. |
| Simulation.StepKeepsMasses | nbody.py:33-43 | A step that does not raise keeps every mass and the number of bodies. |
| Simulation.LoneBodyDrifts | nbody.py:21-22 | A lone body moves in a straight line: after `n` steps it sits at `pos + n*dt*vel` with its velocity unchanged. |
| Simulation.LoneBodySteps | nbody.py:66-67 | Each step of a lone body is one drift by `vel * dt`. |
| Simulation.StraightLine | nbody.py:42-43 | `n` drifts by `dt` are one drift by `n * dt`. |
| Simulation.LoneStep | nbody.py:66-67 | One step of a lone body keeps its velocity and moves it by `vel * dt`. |
| Simulation.DriftTwice | nbody.py:42-43 | Drifting for `a`, then for `b`, is drifting for `a + b`. |
| Simulation.TrailStart | nbody.py:63 | `max(0, i-50)` is at most `i`, and the window it starts has length `min(i, 50)`. |
| Simulation.TrailWindow | nbody.py:63 | The window holds at most 50 slots and starts at slot 0 for the first 50 steps; from step 50 on it slides forward one slot per step. |
| Simulation.HistSlice | nbody.py:63 | The definition of numpy's `hists[j, lo:hi]`: `hi - lo` entries, entry `k` being `hists[j, lo + k]`. The trail promises about this slice are proved in TrailFromHistory, Trail and TrailWindow. |
| Simulation.Trail | nbody.py:63 | The trail drawn at step `i` has `min(i, 50)` positions. |
| Simulation.TrailFromHistory | nbody.py:62-63 | The slice read at step `i` touches only slots already written: it is the list of positions at steps `max(0, i-50) .. i-1`. |
| Simulation.TrailPrefix | nbody.py:63 | A trail only looks back, so later steps do not change it. |
| Simulation.DrawnAppend | nbody.py:58-63 | The trails read at step `i` extend the trails drawn at earlier steps. |
| Simulation.HistoryExtends | nbody.py:54-67 | A further state of the run leaves the recorded array and the trails drawn so far as they are. |
| Simulation.RecordPositions | nbody.py:58-63 | `hists[j, i] = b.pos` writes column `i` and no other, and each trail is read after its own body's slot is written. |
| Simulation.StepByPasses | nbody.py:66-67 | `update_vel` followed by `update_pos`, with no clash, is one step of the run. |
| Simulation.Advance | nbody.py:58-67 | One pass of the loop does three things. It records the pre-step positions in column `i` and reads the trails of the run so far. It raises exactly when the step raises. Otherwise the bodies end in the next step's state; on a raise they keep the partial `update_vel` state. |
| Simulation.RunSimulation | nbody.py:46-67 | The whole loop. `history[k]` is the state after `k` steps. Column `k` of `hists` holds the positions before step `k`, for each step reached, and zero after. Each drawn trail equals the trail of that history. The run ends early exactly at the first step that raises. Colours never change. |

## Left out

- Plotting: every `matplotlib` call (figure, axes, markers, trail lines, `pause`) only draws; the trail slices are modelled as values handed to the plotter.
- `maxrange`: it only adjusts the plot axes and feeds nothing back into the physics.
- The `timeit` frame timings and every `print`: they are I/O.
- Masses of numpy scalar type: the `ZeroDivisionError` on coincident bodies relies on plain Python float masses, as `random.rand() * 4e10` gives (nbody.py:90). With a numpy-scalar mass the division at nbody.py:26 yields `inf`, `inf * 0` yields `nan`, the clamp test `nan > 75` is false, and `get_accell` returns `[nan, nan]` instead of raising. The model has no infinities or NaN, so this path is not modelled.
- `test_run` and `time_test`: they build random bodies and time runs; random numbers and clocks are outside the model.
- Floating point: the model uses exact reals, so it does not capture rounding, the float underflow of `r**3` for very close bodies, or overflow to infinity.
- `math.sqrt` is a parameter that satisfies the square-root law. Float square roots are not modelled.
- The `time_step = 1.0` and `max_steps = 10` defaults: callers of the model pass both explicitly.
- A negative `max_steps`: `np.zeros` at nbody.py:49 raises `ValueError` for it; `RunSimulation` takes `maxSteps` as a `nat`, so that error path is not modelled.
- Aliasing: `UpdateVel`, `UpdatePos` and `RunSimulation` require the body objects in the list to be distinct, and treat a body's `pos` and `vel` as values. A list that holds one body twice, or two bodies sharing one `numpy` array, is not modelled.
- `G` is the constant `6.67408e-11` in `UpdateVel`; the pure force law and `GetAccell` take it as a parameter `g`, so their lemmas hold for any value.
- Forces.PullMagnitude: states `|a|**2 * r**4 == (G*m)**2` rather than `|a| == G*m/r**2`, so that no square root of the result is needed.
- Conservation.MomentumConserved: holds only when no acceleration is clamped; the clamp at 75 can break momentum conservation for general configurations, and the model does not claim otherwise. For a symmetric equal-mass pair, MirroredRun keeps the momentum at zero over any number of steps even when the clamp fires.
- Conservation.StepMoments: holds under the same no-clamp condition as MomentumConserved.
