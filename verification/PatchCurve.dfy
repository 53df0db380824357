/**
  The quadratic curves of a patch (Shared/cm_patch.c), over the reals: subdividing them until each
  piece is close to its chord.
 */
module PatchCurve {
  import opened TraceGeometry

  const SUBDIVIDE_DISTANCE := 16.0

  /** A point at parameter t of the curve with control values a, b and c */
  function Quad(a: real, b: real, c: real, t: real): real {
    a + 2.0 * t * (b - a) + t * t * (a - 2.0 * b + c)
  }

  function Curve(a: Vec, b: Vec, c: Vec, t: real): Vec {
    Vec(Quad(a.x, b.x, c.x, t), Quad(a.y, b.y, c.y, t), Quad(a.z, b.z, c.z, t))
  }

  function Half(a: real, b: real): real {
    0.5 * (a + b)
  }

  function Middle(a: Vec, b: Vec): Vec {
    Vec(Half(a.x, b.x), Half(a.y, b.y), Half(a.z, b.z))
  }

  function Minus(a: Vec, b: Vec): Vec {
    Vec(a.x - b.x, a.y - b.y, a.z - b.z)
  }

  /** How far the curve's middle is from the middle of its chord, squared */
  function Bend(a: Vec, b: Vec, c: Vec): real {
    var d := Minus(Middle(Middle(a, b), Middle(b, c)), Middle(a, c));
    Dot(d, d)
  }

  /** CM_NeedsSubdivision: lengths are compared by their squares. */
  predicate NeedsSubdivision(a: Vec, b: Vec, c: Vec) {
    Bend(a, b, c) >= SUBDIVIDE_DISTANCE * SUBDIVIDE_DISTANCE
  }

  /** A part of a curve: its polynomial in s, with the coefficients scaled */
  lemma ScaledTerms(s: real, d: real, e: real)
    ensures 2.0 * s * (0.5 * d) == 2.0 * (0.5 * s) * d
    ensures s * s * (0.25 * e) == (0.5 * s) * (0.5 * s) * e
  {
    assert (0.5 * s) * (0.5 * s) == 0.25 * (s * s);
    assert s * s * (0.25 * e) == 0.25 * (s * s) * e;
  }

  lemma QuadIs(a: real, b: real, c: real, t: real, d: real, e: real)
    requires d == b - a && e == a - 2.0 * b + c
    ensures Quad(a, b, c, t) == a + 2.0 * t * d + t * t * e
  {
  }

  /** The first half of a subdivided curve is the curve itself, at half the parameter. */
  lemma FirstHalf(a: real, b: real, c: real, s: real)
    ensures Quad(a, Half(a, b), Half(Half(a, b), Half(b, c)), s) == Quad(a, b, c, 0.5 * s)
  {
    var d, e := b - a, a - 2.0 * b + c;
    QuadIs(a, Half(a, b), Half(Half(a, b), Half(b, c)), s, 0.5 * d, 0.25 * e);
    QuadIs(a, b, c, 0.5 * s, d, e);
    ScaledTerms(s, d, e);
  }

  lemma ShiftedTerms(s: real, d: real, e: real)
    ensures 2.0 * s * (0.5 * d + 0.25 * e) == s * d + 0.5 * (s * e)
    ensures 2.0 * (0.5 + 0.5 * s) * d == d + s * d
    ensures (0.5 + 0.5 * s) * (0.5 + 0.5 * s) * e == 0.25 * e + 0.5 * (s * e) + 0.25 * (s * s * e)
    ensures s * s * (0.25 * e) == 0.25 * (s * s * e)
  {
    assert (0.5 + 0.5 * s) * (0.5 + 0.5 * s) == 0.25 + 0.5 * s + 0.25 * (s * s);
    Distributes(0.25 + 0.5 * s, 0.25 * (s * s), e);
    Distributes(0.25, 0.5 * s, e);
  }

  /** The second half is the curve from its middle on. */
  lemma SecondHalf(a: real, b: real, c: real, s: real)
    ensures Quad(Half(Half(a, b), Half(b, c)), Half(b, c), c, s) == Quad(a, b, c, 0.5 + 0.5 * s)
  {
    var d, e := b - a, a - 2.0 * b + c;
    var mid := Half(Half(a, b), Half(b, c));
    assert mid == a + d + 0.25 * e;
    QuadIs(mid, Half(b, c), c, s, 0.5 * d + 0.25 * e, 0.25 * e);
    QuadIs(a, b, c, 0.5 + 0.5 * s, d, e);
    ShiftedTerms(s, d, e);
  }

  lemma CurveHalves(a: Vec, b: Vec, c: Vec, s: real)
    ensures
      var m1, m3 := Middle(a, b), Middle(b, c);
      var mid := Middle(m1, m3);
      && Curve(a, m1, mid, s) == Curve(a, b, c, 0.5 * s)
      && Curve(mid, m3, c, s) == Curve(a, b, c, 0.5 + 0.5 * s)
  {
    hide Quad, Half;
    FirstHalf(a.x, b.x, c.x, s);
    FirstHalf(a.y, b.y, c.y, s);
    FirstHalf(a.z, b.z, c.z, s);
    SecondHalf(a.x, b.x, c.x, s);
    SecondHalf(a.y, b.y, c.y, s);
    SecondHalf(a.z, b.z, c.z, s);
  }

  lemma CurveAtEnds(a: Vec, b: Vec, c: Vec)
    ensures Curve(a, b, c, 0.0) == a && Curve(a, b, c, 1.0) == c
  {
  }

  /** The second difference of the control values */
  function Second(a: real, b: real, c: real): real {
    a - 2.0 * b + c
  }

  /** The bend is a sixteenth of the squared second difference. */
  lemma BendIs(a: Vec, b: Vec, c: Vec)
    ensures
      var x, y, z := Second(a.x, b.x, c.x), Second(a.y, b.y, c.y), Second(a.z, b.z, c.z);
      16.0 * Bend(a, b, c) == x * x + y * y + z * z
  {
    QuarterSquared(a.x, b.x, c.x);
    QuarterSquared(a.y, b.y, c.y);
    QuarterSquared(a.z, b.z, c.z);
  }

  lemma QuarterSquared(a: real, b: real, c: real)
    ensures
      var d, x := Half(Half(a, b), Half(b, c)) - Half(a, c), Second(a, b, c);
      16.0 * (d * d) == x * x
  {
    var d, x := Half(Half(a, b), Half(b, c)) - Half(a, c), Second(a, b, c);
    assert x == -4.0 * d;
    assert (-4.0 * d) * (-4.0 * d) == 16.0 * (d * d);
  }

  /** Subdividing quarters the second difference, and so divides the bend by sixteen. */
  lemma HalvesBendLess(a: Vec, b: Vec, c: Vec)
    ensures
      var m1, m3 := Middle(a, b), Middle(b, c);
      var mid := Middle(m1, m3);
      Bend(a, m1, mid) == Bend(mid, m3, c) == Bend(a, b, c) / 16.0
  {
    var m1, m3 := Middle(a, b), Middle(b, c);
    var mid := Middle(m1, m3);
    BendIs(a, b, c);
    BendIs(a, m1, mid);
    BendIs(mid, m3, c);
    SecondOfHalves(a.x, b.x, c.x);
    SecondOfHalves(a.y, b.y, c.y);
    SecondOfHalves(a.z, b.z, c.z);
  }

  lemma SecondOfHalves(a: real, b: real, c: real)
    ensures
      var x, y, z := Second(a, b, c), Second(a, Half(a, b), Half(Half(a, b), Half(b, c))),
                     Second(Half(Half(a, b), Half(b, c)), Half(b, c), c);
      y == z && 16.0 * (y * y) == x * x
  {
    var x, y := Second(a, b, c), Second(a, Half(a, b), Half(Half(a, b), Half(b, c)));
    assert x == 4.0 * y;
    assert (4.0 * y) * (4.0 * y) == 16.0 * (y * y);
  }

  /** The squared distance of two points */
  function Apart2(p: Vec, q: Vec): real {
    Dot(Minus(p, q), Minus(p, q))
  }

  /** A curve is subdivided exactly if its middle is 16 units or more from that of its chord. */
  lemma SubdividedWhenFar(a: Vec, b: Vec, c: Vec)
    ensures NeedsSubdivision(a, b, c) <==> Apart2(Curve(a, b, c, 0.5), Between(a, c, 0.5)) >= 16.0 * 16.0
  {
    hide Quad, Mix, Half;
    MiddleIs(a.x, b.x, c.x);
    MiddleIs(a.y, b.y, c.y);
    MiddleIs(a.z, b.z, c.z);
  }

  lemma MiddleIs(a: real, b: real, c: real)
    ensures Quad(a, b, c, 0.5) == Half(Half(a, b), Half(b, c)) && Mix(a, c, 0.5) == Half(a, c)
  {
  }

  /** The curve is from its chord by at most what it is in the middle. */
  lemma ChordIsClose(a: Vec, b: Vec, c: Vec, t: real)
    requires 0.0 <= t <= 1.0
    ensures Apart2(Curve(a, b, c, t), Between(a, c, t)) <= Bend(a, b, c)
  {
    hide Quad, Mix, Bend, Second;
    BendIs(a, b, c);
    ComponentIsClose(a.x, b.x, c.x, t);
    ComponentIsClose(a.y, b.y, c.y, t);
    ComponentIsClose(a.z, b.z, c.z, t);
  }

  lemma ComponentIsClose(a: real, b: real, c: real, t: real)
    requires 0.0 <= t <= 1.0
    ensures
      var d, x := Quad(a, b, c, t) - Mix(a, c, t), Second(a, b, c);
      16.0 * (d * d) <= x * x
  {
    hide Quad, Mix, Second;
    AtMostQuarter(t);
    FromChord(a, b, c, t);
    SquareShrinks(t * (1.0 - t), Second(a, b, c), Quad(a, b, c, t) - Mix(a, c, t));
  }

  lemma SquareIsPositive(x: real)
    ensures x * x >= 0.0
  {
  }

  lemma AtMostQuarter(t: real)
    requires 0.0 <= t <= 1.0
    ensures 0.0 <= t * (1.0 - t) <= 0.25
  {
    SquareIsPositive(0.5 - t);
    assert 0.25 - t * (1.0 - t) == (0.5 - t) * (0.5 - t);
    ProductIsPositive(t, 1.0 - t);
  }

  lemma FromChord(a: real, b: real, c: real, t: real)
    ensures Quad(a, b, c, t) - Mix(a, c, t) == -(t * (1.0 - t) * Second(a, b, c))
  {
    var d, e := b - a, Second(a, b, c);
    QuadIs(a, b, c, t, d, e);
    assert c - a == 2.0 * d + e;
    assert t * (2.0 * d + e) == 2.0 * t * d + t * e;
    assert t * (1.0 - t) * e == t * e - t * t * e;
  }

  lemma SquareShrinks(w: real, x: real, y: real)
    requires 0.0 <= w <= 0.25 && y == -(w * x)
    ensures 16.0 * (y * y) <= x * x
  {
    var q, v := x * x, w * w;
    SquareIsPositive(x);
    assert y * y == (w * x) * (w * x);
    assert (w * x) * (w * x) == v * q;
    assert 0.0625 - v == (0.25 - w) * (0.25 + w);
    ProductIsPositive(0.25 - w, 0.25 + w);
    ProductIsPositive(0.0625 - v, q);
    Distributes(0.0625 - v, v, q);
  }
}
