/** Two-component real vectors: the `shape (2,)` numpy arrays that hold
    positions, velocities and accelerations. */
module Vectors {

  datatype Vec = Vec(x: real, y: real)

  const Zero := Vec(0.0, 0.0)

  function Add(a: Vec, b: Vec): Vec {
    Vec(a.x + b.x, a.y + b.y)
  }

  /** `a - b`. */
  function Sub(a: Vec, b: Vec): Vec {
    Vec(a.x - b.x, a.y - b.y)
  }

  function Neg(a: Vec): Vec {
    Vec(-a.x, -a.y)
  }

  function Scale(k: real, a: Vec): Vec {
    Vec(k * a.x, k * a.y)
  }

  /** `v + a * dt`, written componentwise as the in-place updates do. */
  function AddScaled(v: Vec, a: Vec, dt: real): Vec {
    Vec(v.x + a.x * dt, v.y + a.y * dt)
  }

  function Dot(a: Vec, b: Vec): real {
    a.x * b.x + a.y * b.y
  }

  function Abs(u: real): (r: real)
    ensures r >= 0.0 && (r == u || r == -u)
  {
    if u < 0.0 then -u else u
  }

  function Max(u: real, v: real): (r: real)
    ensures r >= u && r >= v && (r == u || r == v)
  {
    if u >= v then u else v
  }

  function Min(u: real, v: real): (r: real)
    ensures r <= u && r <= v && (r == u || r == v)
  {
    if u <= v then u else v
  }

  /** Squared Euclidean distance, `(a[0]-b[0])**2 + (a[1]-b[1])**2`. */
  function Dist2(a: Vec, b: Vec): real {
    (a.x - b.x) * (a.x - b.x) + (a.y - b.y) * (a.y - b.y)
  }

  /** The product of two positive numbers is positive. The product is
      passed in as `m` so that callers can hand over their own expression
      for it. */
  lemma ProductPositive(u: real, w: real, m: real)
    requires m == u * w && u > 0.0 && w > 0.0
    ensures m > 0.0
  {
  }

  /** Squares are non-negative, and positive off zero. */
  lemma SquareSign(u: real, m: real)
    requires m == u * u
    ensures m >= 0.0
    ensures u != 0.0 ==> m > 0.0
  {
    if u > 0.0 {
      ProductPositive(u, u, m);
    } else if u < 0.0 {
      ProductPositive(-u, -u, m);
    }
  }

  /** The squared distance is never negative, and it is zero exactly when
      the points coincide. */
  lemma Dist2Zero(a: Vec, b: Vec)
    ensures Dist2(a, b) >= 0.0
    ensures Dist2(a, b) == 0.0 <==> a == b
  {
    SquareSign(a.x - b.x, (a.x - b.x) * (a.x - b.x));
    SquareSign(a.y - b.y, (a.y - b.y) * (a.y - b.y));
  }

  lemma Dist2Symmetric(a: Vec, b: Vec)
    ensures Dist2(a, b) == Dist2(b, a)
  {
    assert (a.x - b.x) * (a.x - b.x) == (b.x - a.x) * (b.x - a.x);
    assert (a.y - b.y) * (a.y - b.y) == (b.y - a.y) * (b.y - a.y);
  }

  /** Reversing a difference negates it. */
  lemma SubSwap(a: Vec, b: Vec)
    ensures Sub(a, b) == Neg(Sub(b, a))
  {
  }

  /** Scaling `d` by `mp * kp` is the opposite of scaling `-d` by `mq * kq`
      when the two weights agree. */
  lemma ScaledOpposite(mp: real, mq: real, kp: real, kq: real, d: Vec)
    requires mp * kp == mq * kq
    ensures Scale(mp, Scale(kp, d)) == Neg(Scale(mq, Scale(kq, Neg(d))))
  {
    assert mp * (kp * d.x) == (mp * kp) * d.x && mq * (kq * -d.x) == -((mq * kq) * d.x);
    assert mp * (kp * d.y) == (mp * kp) * d.y && mq * (kq * -d.y) == -((mq * kq) * d.y);
  }

  /** Scaling distributes over a sum. */
  lemma ScaleAdd(k: real, a: Vec, b: Vec)
    ensures Scale(k, Add(a, b)) == Add(Scale(k, a), Scale(k, b))
  {
    assert k * (a.x + b.x) == k * a.x + k * b.x;
    assert k * (a.y + b.y) == k * a.y + k * b.y;
  }

  /** Scaling distributes over `v + a * dt`. */
  lemma ScaleAddScaled(k: real, v: Vec, a: Vec, dt: real)
    ensures Scale(k, AddScaled(v, a, dt)) == AddScaled(Scale(k, v), Scale(k, a), dt)
  {
    assert k * (v.x + a.x * dt) == k * v.x + (k * a.x) * dt;
    assert k * (v.y + a.y * dt) == k * v.y + (k * a.y) * dt;
  }

  /** `p + u * dt` plus `q + w * dt` is `(p + q) + (u + w) * dt`. */
  lemma AddScaledAdd(p: Vec, q: Vec, u: Vec, w: Vec, dt: real)
    ensures Add(AddScaled(p, u, dt), AddScaled(q, w, dt)) == AddScaled(Add(p, q), Add(u, w), dt)
  {
    var s := Add(u, w);
    var l, r := Add(AddScaled(p, u, dt), AddScaled(q, w, dt)), AddScaled(Add(p, q), s, dt);
    SumOfScaled(p.x, q.x, u.x, w.x, s.x, dt, u.x * dt, w.x * dt, s.x * dt);
    SumOfScaled(p.y, q.y, u.y, w.y, s.y, dt, u.y * dt, w.y * dt, s.y * dt);
    assert l.x == r.x && l.y == r.y;
  }

  /** One component of `AddScaledAdd`, with the products `i == u * dt`,
      `j == w * dt` and `k == s * dt` passed in. */
  lemma SumOfScaled(p: real, q: real, u: real, w: real, s: real, dt: real, i: real, j: real, k: real)
    requires s == u + w && i == u * dt && j == w * dt && k == s * dt
    ensures (p + i) + (q + j) == (p + q) + k
  {
    assert k == i + j;
  }

  lemma NegZero()
    ensures Neg(Zero) == Zero
  {
  }

  /** Negation distributes over `v + a * dt`. */
  lemma NegAddScaled(v: Vec, a: Vec, dt: real)
    ensures Neg(AddScaled(v, a, dt)) == AddScaled(Neg(v), Neg(a), dt)
  {
    var na := Neg(a);
    var l, r := Neg(AddScaled(v, a, dt)), AddScaled(Neg(v), na, dt);
    NegOfScaled(v.x, a.x, na.x, dt, a.x * dt, na.x * dt);
    NegOfScaled(v.y, a.y, na.y, dt, a.y * dt, na.y * dt);
    assert l.x == r.x && l.y == r.y;
  }

  /** One component of `NegAddScaled`, with the products `p == a * dt` and
      `q == -a * dt` passed in. */
  lemma NegOfScaled(v: real, a: real, na: real, dt: real, p: real, q: real)
    requires na == -a && p == a * dt && q == na * dt
    ensures -(v + p) == -v + q
  {
    assert q + p == (na + a) * dt;
  }

  /** `r**3`. */
  function Cube(r: real): real {
    r * r * r
  }

  /** The cube of a positive number is positive. */
  lemma CubePositive(r: real)
    requires r > 0.0
    ensures Cube(r) > 0.0
  {
    ProductPositive(r * r, r, r * r * r);
  }
}
