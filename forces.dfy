/** The force evaluator: `get_accell` as pure functions of a snapshot of
    positions and masses, with the stability clamp and Newton's third law. */
module Forces {
  import opened Vectors

  /** The outcome of a computation that divides by a distance: the value, or
      the ZeroDivisionError Python raises when two bodies coincide. */
  datatype Result<T> = Ok(value: T) | DivisionByZero

  /** What the force law reads of a body: its position and its mass. */
  datatype Particle = Particle(pos: Vec, mass: real)

  /** The clamp threshold of `get_accell`. */
  const Limit: real := 75.0

  /** `sqrt` stands for `math.sqrt`: the square root of zero is zero, and a
      positive number has a positive square root. */
  ghost predicate IsSqrt(sqrt: real -> real) {
    forall u: real :: RootAt(sqrt, u)
  }

  ghost predicate RootAt(sqrt: real -> real, u: real) {
    (u == 0.0 ==> sqrt(u) == 0.0) && (u > 0.0 ==> sqrt(u) > 0.0 && sqrt(u) * sqrt(u) == u)
  }

  /** `r` in `get_accell`: the distance between two points. */
  function Distance(a: Vec, b: Vec, sqrt: real -> real): real {
    sqrt(Dist2(a, b))
  }

  /** The distance between two points is zero exactly when they coincide;
      otherwise it is positive and squares to the squared distance. */
  lemma DistanceZero(a: Vec, b: Vec, sqrt: real -> real)
    requires IsSqrt(sqrt)
    ensures Distance(a, b, sqrt) == 0.0 <==> a == b
    ensures Distance(a, b, sqrt) >= 0.0
    ensures Distance(a, b, sqrt) * Distance(a, b, sqrt) == Dist2(a, b)
  {
    Dist2Zero(a, b);
    assert RootAt(sqrt, Dist2(a, b));
  }

  /** The distance is symmetric. */
  lemma DistanceSymmetric(a: Vec, b: Vec, sqrt: real -> real)
    ensures Distance(a, b, sqrt) == Distance(b, a, sqrt)
  {
    Dist2Symmetric(a, b);
  }

  /** The factor `G * m / r**3` of one term of the sum in `get_accell`. */
  function Coefficient(target: Vec, other: Particle, g: real, sqrt: real -> real): real
    requires IsSqrt(sqrt) && target != other.pos
  {
    DistanceZero(target, other.pos, sqrt);
    CubePositive(Distance(target, other.pos, sqrt));
    g * other.mass / Cube(Distance(target, other.pos, sqrt))
  }

  /** One term of the sum in `get_accell`: the acceleration a body at
      `target` receives from `other`, `G * m / r**3 * (other - target)`. */
  function Pull(target: Vec, other: Particle, g: real, sqrt: real -> real): Vec
    requires IsSqrt(sqrt) && target != other.pos
  {
    Scale(Coefficient(target, other, g, sqrt), Sub(other.pos, target))
  }

  /** No body among the first `n`, other than the target itself, shares the
      target's position. */
  predicate Separated(ps: seq<Particle>, t: nat, n: nat)
    requires t < |ps| && n <= |ps|
  {
    forall j :: 0 <= j < n && j != t ==> ps[j].pos != ps[t].pos
  }

  /** Some other body sits exactly on the target: the case in which
      `get_accell` divides by `r**3 == 0`. */
  predicate Coincident(ps: seq<Particle>, t: nat)
    requires t < |ps|
  {
    !Separated(ps, t, |ps|)
  }

  /** The accumulation loop of `get_accell` after visiting the first `n`
      bodies: the sum of the pulls on body `t` from every `j < n`, `j != t`,
      added in index order. */
  function PullSum(ps: seq<Particle>, t: nat, n: nat, g: real, sqrt: real -> real): Vec
    requires t < |ps| && n <= |ps| && IsSqrt(sqrt) && Separated(ps, t, n)
    decreases n
  {
    if n == 0 then Zero
    else if n - 1 == t then PullSum(ps, t, n - 1, g, sqrt)
    else Add(PullSum(ps, t, n - 1, g, sqrt), Pull(ps[t].pos, ps[n - 1], g, sqrt))
  }

  /** `max(accell.max(), abs(accell.min()))`, as nbody.py writes it: it is
      the largest absolute value of the two components. */
  function PeakComponent(a: Vec): (m: real)
    ensures m == Max(Abs(a.x), Abs(a.y))
  {
    Max(Max(a.x, a.y), Abs(Min(a.x, a.y)))
  }

  /** The stability clamp: an acceleration with a component beyond 75 in
      absolute value is replaced by the zero vector; any other is kept. */
  function Clamp(a: Vec): (r: Vec)
    ensures Abs(a.x) <= Limit && Abs(a.y) <= Limit ==> r == a
    ensures Abs(a.x) > Limit || Abs(a.y) > Limit ==> r == Zero
    ensures Abs(r.x) <= Limit && Abs(r.y) <= Limit
  {
    if PeakComponent(a) > Limit then Zero else a
  }

  /** `get_accell(bodies, t)`: a division by zero when another body sits on
      the target, and otherwise the clamped sum of the pulls of all other
      bodies. */
  function Accel(ps: seq<Particle>, t: nat, g: real, sqrt: real -> real): (r: Result<Vec>)
    requires t < |ps| && IsSqrt(sqrt)
    ensures r.DivisionByZero? <==> exists j :: 0 <= j < |ps| && j != t && ps[j].pos == ps[t].pos
    ensures r.Ok? ==> Abs(r.value.x) <= Limit && Abs(r.value.y) <= Limit
  {
    if Coincident(ps, t) then DivisionByZero else Ok(Clamp(PullSum(ps, t, |ps|, g, sqrt)))
  }

  /** A lone body feels no acceleration. */
  lemma LoneBody(p: Particle, g: real, sqrt: real -> real)
    requires IsSqrt(sqrt)
    ensures Accel([p], 0, g, sqrt) == Ok(Zero)
  {
    assert PullSum([p], 0, 1, g, sqrt) == PullSum([p], 0, 0, g, sqrt);
  }

  /** The sum skips the target: nothing about the target but its position
      enters it, so changing its mass leaves its acceleration as it was. */
  lemma {:induction false} TargetMassIgnored(ps: seq<Particle>, t: nat, n: nat, m: real, g: real, sqrt: real -> real)
    requires t < |ps| && n <= |ps| && IsSqrt(sqrt) && Separated(ps, t, n)
    ensures Separated(ps[t := ps[t].(mass := m)], t, n)
    ensures PullSum(ps[t := ps[t].(mass := m)], t, n, g, sqrt) == PullSum(ps, t, n, g, sqrt)
    decreases n
  {
    if n > 0 {
      TargetMassIgnored(ps, t, n - 1, m, g, sqrt);
    }
  }

  /** The pull is a positive multiple of the displacement from the target
      to the other body when `G` and the other body's mass are positive: it
      lies along the line joining them and points towards the other body. */
  lemma PullAttracts(target: Vec, other: Particle, g: real, sqrt: real -> real)
    requires IsSqrt(sqrt) && target != other.pos
    requires g > 0.0 && other.mass > 0.0
    ensures Coefficient(target, other, g, sqrt) > 0.0
    ensures Pull(target, other, g, sqrt) == Scale(Coefficient(target, other, g, sqrt), Sub(other.pos, target))
    ensures Dot(Pull(target, other, g, sqrt), Vec(other.pos.x - target.x, other.pos.y - target.y)) > 0.0
  {
    DistanceZero(target, other.pos, sqrt);
    Dist2Zero(target, other.pos);
    var r := Distance(target, other.pos, sqrt);
    var dx, dy := other.pos.x - target.x, other.pos.y - target.y;
    CubePositive(r);
    ProductPositive(g, other.mass, g * other.mass);
    var k := g * other.mass / Cube(r);
    assert k > 0.0;
    var d := dx * dx + dy * dy;
    assert d > 0.0 by { Dist2Symmetric(target, other.pos); }
    ProductPositive(k, d, k * d);
    assert Dot(Vec(k * dx, k * dy), Vec(dx, dy)) == k * d;
  }

  /** The force law: the pull has magnitude `G * m / r**2`. Stated without
      division, `|a|**2 * (r**2)**2 == (G * m)**2`. */
  lemma PullMagnitude(target: Vec, other: Particle, g: real, sqrt: real -> real)
    requires IsSqrt(sqrt) && target != other.pos
    ensures Dist2(target, other.pos) > 0.0
    ensures var a := Pull(target, other, g, sqrt);
            var d := Dist2(target, other.pos);
            Dot(a, a) * (d * d) == (g * other.mass) * (g * other.mass)
  {
    DistanceZero(target, other.pos, sqrt);
    Dist2Zero(target, other.pos);
    var d := Dist2(target, other.pos);
    var r := Distance(target, other.pos, sqrt);
    var dx, dy := other.pos.x - target.x, other.pos.y - target.y;
    CubePositive(r);
    var c := Cube(r);
    var k := g * other.mass / c;
    assert d == dx * dx + dy * dy by { Dist2Symmetric(target, other.pos); }
    assert Pull(target, other, g, sqrt) == Vec(k * dx, k * dy);
    SquaredLength(k, dx, dy, d);
    InverseSquare(k, c, r, d, g * other.mass, k * k * d);
  }

  /** `|(k dx, k dy)|**2 == k**2 * d` when `d == dx**2 + dy**2`. */
  lemma SquaredLength(k: real, dx: real, dy: real, d: real)
    requires d == dx * dx + dy * dy
    ensures (k * dx) * (k * dx) + (k * dy) * (k * dy) == k * k * d
  {
  }

  /** `(k * r**3)**2 == k**2 * d**3` when `d == r**2`. */
  lemma CubeSquared(k: real, c: real, r: real, d: real)
    requires d == r * r && c == r * r * r
    ensures (k * c) * (k * c) == k * k * d * (d * d)
  {
  }

  /** With `k == gm / r**3` and `d == r**2`, `k**2 * d * d**2 == gm**2`. */
  lemma InverseSquare(k: real, c: real, r: real, d: real, gm: real, s: real)
    requires d == r * r && c == r * r * r && c != 0.0 && k == gm / c && s == k * k * d
    ensures s * (d * d) == gm * gm
  {
    CubeSquared(k, c, r, d);
    assert k * c == gm;
  }

  /** Newton's third law, the comment beside the step loop: the mass-weighted
      pull of `q` on `p` is the opposite of that of `p` on `q`. */
  lemma ThirdLaw(p: Particle, q: Particle, g: real, sqrt: real -> real)
    requires IsSqrt(sqrt) && p.pos != q.pos
    ensures Scale(p.mass, Pull(p.pos, q, g, sqrt)) == Neg(Scale(q.mass, Pull(q.pos, p, g, sqrt)))
  {
    Coupling(p, q, g, sqrt);
    SubSwap(p.pos, q.pos);
    ScaledOpposite(p.mass, q.mass, Coefficient(p.pos, q, g, sqrt), Coefficient(q.pos, p, g, sqrt), Sub(q.pos, p.pos));
  }

  /** Two bodies of equal mass pull each other with opposite accelerations. */
  lemma EqualMassPulls(p: Vec, q: Vec, m: real, g: real, sqrt: real -> real)
    requires IsSqrt(sqrt) && p != q
    ensures Pull(q, Particle(p, m), g, sqrt) == Neg(Pull(p, Particle(q, m), g, sqrt))
  {
    DistanceSymmetric(p, q, sqrt);
    DistanceZero(p, q, sqrt);
    CubePositive(Distance(p, q, sqrt));
    var k := Coefficient(p, Particle(q, m), g, sqrt);
    assert k == g * m / Cube(Distance(p, q, sqrt));
    assert Coefficient(q, Particle(p, m), g, sqrt) == g * m / Cube(Distance(q, p, sqrt));
    assert k * (p.x - q.x) == -(k * (q.x - p.x));
    assert k * (p.y - q.y) == -(k * (q.y - p.y));
  }

  /** The clamp commutes with negation: `a` is clamped exactly when `-a` is. */
  lemma ClampNeg(a: Vec)
    ensures Clamp(Neg(a)) == Neg(Clamp(a))
  {
    var n := Neg(a);
    assert Abs(n.x) == Abs(a.x) && Abs(n.y) == Abs(a.y);
    if Abs(a.x) <= Limit && Abs(a.y) <= Limit {
      assert Clamp(n) == n && Clamp(a) == a;
    } else {
      assert Clamp(n) == Zero && Clamp(a) == Zero;
      NegZero();
    }
  }

  /** The coupling `m_p * G m_q / r**3` is symmetric in the two bodies. */
  lemma Coupling(p: Particle, q: Particle, g: real, sqrt: real -> real)
    requires IsSqrt(sqrt) && p.pos != q.pos
    ensures p.mass * Coefficient(p.pos, q, g, sqrt) == q.mass * Coefficient(q.pos, p, g, sqrt)
  {
    DistanceSymmetric(p.pos, q.pos, sqrt);
    DistanceZero(p.pos, q.pos, sqrt);
    CubePositive(Distance(p.pos, q.pos, sqrt));
    WeightSwap(p.mass, q.mass, g, Cube(Distance(p.pos, q.pos, sqrt)));
  }

  lemma WeightSwap(mp: real, mq: real, g: real, c: real)
    requires c != 0.0
    ensures mp * (g * mq / c) == mq * (g * mp / c)
  {
  }

  /** All positions are pairwise distinct. */
  predicate AllSeparated(ps: seq<Particle>) {
    forall i, j :: 0 <= i < |ps| && 0 <= j < |ps| && i != j ==> ps[i].pos != ps[j].pos
  }

  /** The force on body `i` from body `j` (up to the factor `G` folded into
      `g`): `m_i` times the pull of `j` on `i`. */
  function Force(ps: seq<Particle>, i: nat, j: nat, g: real, sqrt: real -> real): Vec
    requires i < |ps| && j < |ps| && i != j && AllSeparated(ps) && IsSqrt(sqrt)
  {
    Scale(ps[i].mass, Pull(ps[i].pos, ps[j], g, sqrt))
  }

  /** The forces on body `i` from the bodies `j < n`, `j != i`. */
  function Row(ps: seq<Particle>, i: nat, n: nat, g: real, sqrt: real -> real): Vec
    requires i < |ps| && n <= |ps| && AllSeparated(ps) && IsSqrt(sqrt)
  {
    if n == 0 then Zero
    else if n - 1 == i then Row(ps, i, n - 1, g, sqrt)
    else Add(Row(ps, i, n - 1, g, sqrt), Force(ps, i, n - 1, g, sqrt))
  }

  /** The forces from body `j` on the bodies `i < m`, `i != j`. */
  function Column(ps: seq<Particle>, m: nat, j: nat, g: real, sqrt: real -> real): Vec
    requires m <= |ps| && j < |ps| && AllSeparated(ps) && IsSqrt(sqrt)
  {
    if m == 0 then Zero
    else if m - 1 == j then Column(ps, m - 1, j, g, sqrt)
    else Add(Column(ps, m - 1, j, g, sqrt), Force(ps, m - 1, j, g, sqrt))
  }

  /** The sum of `Row(i, n)` over the bodies `i < m`. */
  function Total(ps: seq<Particle>, m: nat, n: nat, g: real, sqrt: real -> real): Vec
    requires m <= |ps| && n <= |ps| && AllSeparated(ps) && IsSqrt(sqrt)
  {
    if m == 0 then Zero else Add(Total(ps, m - 1, n, g, sqrt), Row(ps, m - 1, n, g, sqrt))
  }

  /** A row is the target's mass times its pull sum. */
  lemma {:induction false} RowIsWeightedPullSum(ps: seq<Particle>, i: nat, n: nat, g: real, sqrt: real -> real)
    requires i < |ps| && n <= |ps| && AllSeparated(ps) && IsSqrt(sqrt)
    ensures Separated(ps, i, n)
    ensures Row(ps, i, n, g, sqrt) == Scale(ps[i].mass, PullSum(ps, i, n, g, sqrt))
    decreases n
  {
    if n > 0 {
      RowIsWeightedPullSum(ps, i, n - 1, g, sqrt);
      if n - 1 != i {
        ScaleAdd(ps[i].mass, PullSum(ps, i, n - 1, g, sqrt), Pull(ps[i].pos, ps[n - 1], g, sqrt));
      }
    }
  }

  /** By the third law, the forces on body `n` from the bodies before `k`
      cancel the forces of body `n` on them. */
  lemma {:induction false} RowCancelsColumn(ps: seq<Particle>, k: nat, n: nat, g: real, sqrt: real -> real)
    requires k <= n < |ps| && AllSeparated(ps) && IsSqrt(sqrt)
    ensures Row(ps, n, k, g, sqrt) == Neg(Column(ps, k, n, g, sqrt))
    decreases k
  {
    if k > 0 {
      RowCancelsColumn(ps, k - 1, n, g, sqrt);
      ThirdLaw(ps[n], ps[k - 1], g, sqrt);
    }
  }

  /** Extending every row by body `n` adds the column of `n`. */
  lemma {:induction false} TotalExtend(ps: seq<Particle>, m: nat, n: nat, g: real, sqrt: real -> real)
    requires m <= n < |ps| && AllSeparated(ps) && IsSqrt(sqrt)
    ensures Total(ps, m, n + 1, g, sqrt) == Add(Total(ps, m, n, g, sqrt), Column(ps, m, n, g, sqrt))
    decreases m
  {
    if m > 0 {
      TotalExtend(ps, m - 1, n, g, sqrt);
    }
  }

  /** The forces among the first `n` bodies sum to zero. */
  lemma {:induction false} TotalVanishes(ps: seq<Particle>, n: nat, g: real, sqrt: real -> real)
    requires n <= |ps| && AllSeparated(ps) && IsSqrt(sqrt)
    ensures Total(ps, n, n, g, sqrt) == Zero
    decreases n
  {
    if n > 0 {
      var k := n - 1;
      TotalVanishes(ps, k, g, sqrt);
      TotalExtend(ps, k, k, g, sqrt);
      RowCancelsColumn(ps, k, k, g, sqrt);
      assert Row(ps, k, n, g, sqrt) == Row(ps, k, k, g, sqrt);
    }
  }
}
