/**
  The geometry of sweeping a box (Shared/cm_trace.c), over the reals: planes, the corner of the box
  that comes first to a plane, and the time at which it does.
 */
module TraceGeometry {
  const EPSILON := 0.125 // SURFACE_CLIP_EPSILON

  datatype Vec = Vec(x: real, y: real, z: real)

  function Dot(a: Vec, b: Vec): real {
    a.x * b.x + a.y * b.y + a.z * b.z
  }

  function At(v: Vec, axis: int): real {
    if axis == 0 then v.x else if axis == 1 then v.y else v.z
  }

  /** kind is the axis of a plane that is perpendicular to one, or 3. */
  datatype Plane = Plane(normal: Vec, dist: real, kind: int, signbits: int)

  /** Which components of the normal are negative (SetPlaneSignbits). */
  function SignBits(n: Vec): int {
    (if n.x < 0.0 then 1 else 0) + (if n.y < 0.0 then 2 else 0) + (if n.z < 0.0 then 4 else 0)
  }

  predicate ProperPlane(p: Plane) {
    && 0 <= p.kind <= 3 && p.signbits == SignBits(p.normal)
    && (p.kind == 0 ==> p.normal == Vec(1.0, 0.0, 0.0))
    && (p.kind == 1 ==> p.normal == Vec(0.0, 1.0, 0.0))
    && (p.kind == 2 ==> p.normal == Vec(0.0, 0.0, 1.0))
  }

  /** A value on the way from a to b */
  function Mix(a: real, b: real, t: real): real {
    a + t * (b - a)
  }

  /** A point on the way from a to b */
  function Between(a: Vec, b: Vec, t: real): Vec {
    Vec(Mix(a.x, b.x, t), Mix(a.y, b.y, t), Mix(a.z, b.z, t))
  }

  /** The corner of a box for some sign bits (offsets of traceWork_t). */
  function Corner(mins: Vec, maxs: Vec, signbits: int): Vec {
    Vec(if signbits % 2 == 1 then maxs.x else mins.x,
        if signbits / 2 % 2 == 1 then maxs.y else mins.y,
        if signbits / 4 % 2 == 1 then maxs.z else mins.z)
  }

  predicate InBox(p: Vec, mins: Vec, maxs: Vec) {
    mins.x <= p.x <= maxs.x && mins.y <= p.y <= maxs.y && mins.z <= p.z <= maxs.z
  }

  lemma LeastProduct(n: real, a: real, lo: real, hi: real, c: real)
    requires lo <= a <= hi && c == if n < 0.0 then hi else lo
    ensures c * n <= a * n
  {
  }

  lemma SignBitsAre(n: Vec)
    ensures SignBits(n) % 2 == 1 <==> n.x < 0.0
    ensures SignBits(n) / 2 % 2 == 1 <==> n.y < 0.0
    ensures SignBits(n) / 4 % 2 == 1 <==> n.z < 0.0
  {
  }

  /** The corner for the plane's sign bits is the point of the box that is least in its front. */
  lemma CornerIsLeast(n: Vec, mins: Vec, maxs: Vec, p: Vec)
    requires InBox(p, mins, maxs)
    ensures InBox(Corner(mins, maxs, SignBits(n)), mins, maxs)
    ensures Dot(Corner(mins, maxs, SignBits(n)), n) <= Dot(p, n)
  {
    SignBitsAre(n);
    var c := Corner(mins, maxs, SignBits(n));
    LeastProduct(n.x, p.x, mins.x, maxs.x, c.x);
    LeastProduct(n.y, p.y, mins.y, maxs.y, c.y);
    LeastProduct(n.z, p.z, mins.z, maxs.z, c.z);
    SumOrder(c.x * n.x, c.y * n.y, c.z * n.z, p.x * n.x, p.y * n.y, p.z * n.z);
  }

  lemma SumOrder(a: real, b: real, c: real, x: real, y: real, z: real)
    requires a <= x && b <= y && c <= z
    ensures a + b + c <= x + y + z
  {
  }

  /** A box that moves from start to end. */
  datatype Sweep = Sweep(start: Vec, end: Vec, mins: Vec, maxs: Vec)

  predicate ProperSweep(s: Sweep) {
    s.mins.x <= s.maxs.x && s.mins.y <= s.maxs.y && s.mins.z <= s.maxs.z
  }

  /** How far the whole box is in front of a plane when its center is at p. */
  function InFront(s: Sweep, plane: Plane, p: Vec): real {
    Dot(p, plane.normal) - (plane.dist - Dot(Corner(s.mins, s.maxs, plane.signbits), plane.normal))
  }

  /** The same at time t of the sweep */
  function Distance(s: Sweep, plane: Plane, t: real): real {
    InFront(s, plane, Between(s.start, s.end, t))
  }

  function Plus(a: Vec, b: Vec): Vec {
    Vec(a.x + b.x, a.y + b.y, a.z + b.z)
  }

  /** That distance is the least among the points of the box. */
  lemma InFrontIsLeast(s: Sweep, plane: Plane, p: Vec, q: Vec)
    requires ProperPlane(plane) && InBox(q, s.mins, s.maxs)
    ensures InFront(s, plane, p) <= Dot(Plus(p, q), plane.normal) - plane.dist
  {
    CornerIsLeast(plane.normal, s.mins, s.maxs, q);
    DotOfSum(p, q, plane.normal);
  }

  lemma DotOfSum(p: Vec, q: Vec, n: Vec)
    ensures Dot(Plus(p, q), n) == Dot(p, n) + Dot(q, n)
  {
    Distributes(p.x, q.x, n.x);
    Distributes(p.y, q.y, n.y);
    Distributes(p.z, q.z, n.z);
  }

  lemma Distributes(a: real, b: real, c: real)
    ensures (a + b) * c == a * c + b * c
  {
  }

  lemma MixOfProducts(a: real, b: real, t: real, n: real)
    ensures Mix(a, b, t) * n == Mix(a * n, b * n, t)
  {
    Distributes(a, t * (b - a), n);
    assert (b - a) * n == b * n - a * n;
    assert t * (b - a) * n == t * ((b - a) * n);
  }

  lemma MixOfSums(a: real, b: real, c: real, d: real, t: real)
    ensures Mix(a, b, t) + Mix(c, d, t) == Mix(a + c, b + d, t)
  {
    Distributes(b - a, d - c, t);
  }

  lemma MixOfShifted(a: real, b: real, c: real, t: real)
    ensures Mix(a, b, t) - c == Mix(a - c, b - c, t)
  {
  }

  lemma MixAtEnds(a: real, b: real)
    ensures Mix(a, b, 0.0) == a && Mix(a, b, 1.0) == b
  {
  }

  /** Distances change evenly over time. */
  lemma DotBetween(a: Vec, b: Vec, t: real, n: Vec)
    ensures Dot(Between(a, b, t), n) == Mix(Dot(a, n), Dot(b, n), t)
  {
    hide Mix;
    MixOfProducts(a.x, b.x, t, n.x);
    MixOfProducts(a.y, b.y, t, n.y);
    MixOfProducts(a.z, b.z, t, n.z);
    SumOfMixes(a.x * n.x, b.x * n.x, a.y * n.y, b.y * n.y, a.z * n.z, b.z * n.z, t, Dot(a, n), Dot(b, n));
  }

  lemma SumOfMixes(a: real, b: real, c: real, d: real, e: real, f: real, t: real, p: real, q: real)
    requires p == a + c + e && q == b + d + f
    ensures Mix(a, b, t) + Mix(c, d, t) + Mix(e, f, t) == Mix(p, q, t)
  {
    hide Mix;
    MixOfSums(a, b, c, d, t);
    MixOfSums(a + c, b + d, e, f, t);
  }

  lemma BetweenAtEnds(a: Vec, b: Vec)
    ensures Between(a, b, 0.0) == a && Between(a, b, 1.0) == b
  {
    hide Mix;
    MixAtEnds(a.x, b.x);
    MixAtEnds(a.y, b.y);
    MixAtEnds(a.z, b.z);
  }

  lemma DistanceIsEven(s: Sweep, plane: Plane, t: real)
    ensures Distance(s, plane, t) == Mix(Distance(s, plane, 0.0), Distance(s, plane, 1.0), t)
  {
    hide Mix, Between, Dot;
    DotBetween(s.start, s.end, t, plane.normal);
    BetweenAtEnds(s.start, s.end);
    MixOfShifted(Dot(s.start, plane.normal), Dot(s.end, plane.normal),
                 plane.dist - Dot(Corner(s.mins, s.maxs, plane.signbits), plane.normal), t);
  }

  /** A falling line reaches c at f. */
  lemma Falls(d1: real, d2: real, f: real, c: real, t: real)
    requires d1 > d2 && f * (d1 - d2) == d1 - c
    ensures t <= f <==> Mix(d1, d2, t) >= c
    ensures t < f <==> Mix(d1, d2, t) > c
  {
    LineAt(d1, d2, f, c, t);
    SignOfProduct(f - t, d1 - d2, Mix(d1, d2, t) - c);
  }

  /** A rising line reaches c at f. */
  lemma Rises(d1: real, d2: real, f: real, c: real, t: real)
    requires d1 < d2 && f * (d1 - d2) == d1 - c
    ensures t >= f <==> Mix(d1, d2, t) >= c
    ensures t > f <==> Mix(d1, d2, t) > c
  {
    LineAt(d1, d2, f, c, t);
    assert (f - t) * (d1 - d2) == (t - f) * (d2 - d1);
    SignOfProduct(t - f, d2 - d1, Mix(d1, d2, t) - c);
  }

  /** A line from d1 to d2 over the time from 0 to 1 */
  lemma LineAt(d1: real, d2: real, f: real, c: real, t: real)
    requires f * (d1 - d2) == d1 - c
    ensures Mix(d1, d2, t) - c == (f - t) * (d1 - d2)
  {
    assert (f - t) * (d1 - d2) == f * (d1 - d2) - t * (d1 - d2);
    assert t * (d2 - d1) == -(t * (d1 - d2));
  }

  lemma SignOfProduct(a: real, b: real, p: real)
    requires b > 0.0 && p == a * b
    ensures a >= 0.0 <==> p >= 0.0
    ensures a > 0.0 <==> p > 0.0
  {
  }

  lemma Scaled(t: real, d: real, p: real)
    requires 0.0 <= t <= 1.0 && d >= 0.0 && p == t * d
    ensures 0.0 <= p <= d
  {
    assert d - p == (1.0 - t) * d;
  }

  /** A value between two others lies between them. */
  lemma MixIsBetween(d1: real, d2: real, t: real)
    requires 0.0 <= t <= 1.0
    ensures d1 <= d2 ==> d1 <= Mix(d1, d2, t) <= d2
    ensures d1 >= d2 ==> d2 <= Mix(d1, d2, t) <= d1
  {
    var p := Mix(d1, d2, t);
    if d1 <= d2 {
      Scaled(t, d2 - d1, p - d1);
    } else {
      assert d1 - p == t * (d1 - d2);
      Scaled(t, d1 - d2, d1 - p);
    }
  }

  lemma MixInOrder(t1: real, t2: real, u: real, v: real)
    requires t1 <= t2 && u <= v
    ensures Mix(t1, t2, u) <= Mix(t1, t2, v)
  {
    assert Mix(t1, t2, v) - Mix(t1, t2, u) == (v - u) * (t2 - t1);
    ProductIsPositive(v - u, t2 - t1);
  }

  lemma ProductIsPositive(a: real, b: real)
    requires a >= 0.0 && b >= 0.0
    ensures a * b >= 0.0
  {
  }

  lemma MixOfMixes(a: real, b: real, t1: real, t2: real, f: real)
    ensures Mix(Mix(a, b, t1), Mix(a, b, t2), f) == Mix(a, b, Mix(t1, t2, f))
  {
    var d := b - a;
    assert t2 * d - t1 * d == (t2 - t1) * d;
    assert f * ((t2 - t1) * d) == f * (t2 - t1) * d;
    Distributes(t1, f * (t2 - t1), d);
  }

  lemma Quotient(a: real, b: real)
    requires b != 0.0
    ensures a / b * b == a
  {
  }
}
