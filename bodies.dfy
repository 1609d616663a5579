/** The mutable `body` records of the simulation and their value snapshots. */
module Bodies {
  import opened Vectors
  import opened Forces

  /** `body.color`: a colour name such as `'cyan'`, or the RGB triple the
      random set-up draws. Only the plotter reads it. */
  datatype Color = Named(name: string) | Rgb(red: real, green: real, blue: real)

  /** `class body`: a position, a mass, a velocity and a colour. The physics
      updates `pos` and `vel` in place. */
  class Body {
    var pos: Vec
    var mass: real
    var vel: Vec
    var color: Color

    /** `body(pos, mass, vel, color='cyan')`. */
    constructor (pos: Vec, mass: real, vel: Vec, color: Color := Named("cyan"))
      ensures this.pos == pos && this.mass == mass && this.vel == vel && this.color == color
    {
      this.pos := pos;
      this.mass := mass;
      this.vel := vel;
      this.color := color;
    }
  }

  /** The part of a body the physics reads and writes. */
  datatype State = State(pos: Vec, vel: Vec, mass: real)

  /** The current state of every body of the list, in list order. */
  function Snapshot(bodies: seq<Body>): (ss: seq<State>)
    reads bodies
    ensures |ss| == |bodies|
    ensures forall i :: 0 <= i < |bodies| ==> ss[i].pos == bodies[i].pos && ss[i].vel == bodies[i].vel && ss[i].mass == bodies[i].mass
  {
    seq(|bodies|, i requires 0 <= i < |bodies| reads bodies => State(bodies[i].pos, bodies[i].vel, bodies[i].mass))
  }

  /** What the force law sees of a list of states: positions and masses. */
  function ParticlesOf(ss: seq<State>): (ps: seq<Particle>)
    ensures |ps| == |ss|
    ensures forall i :: 0 <= i < |ss| ==> ps[i] == Particle(ss[i].pos, ss[i].mass)
  {
    seq(|ss|, i requires 0 <= i < |ss| => Particle(ss[i].pos, ss[i].mass))
  }

  /** No body object occurs twice in the list. */
  predicate Distinct(bodies: seq<Body>) {
    forall i, j :: 0 <= i < |bodies| && 0 <= j < |bodies| && i != j ==> bodies[i] != bodies[j]
  }

  /** Changing velocities changes nothing the force law sees. */
  lemma ParticlesIgnoreVelocity(ss: seq<State>, ts: seq<State>)
    requires |ss| == |ts|
    requires forall i :: 0 <= i < |ss| ==> ss[i].pos == ts[i].pos && ss[i].mass == ts[i].mass
    ensures ParticlesOf(ss) == ParticlesOf(ts)
  {
  }
}
