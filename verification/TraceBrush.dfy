/**
  CM_TraceThroughBrush of Shared/cm_trace.c: a moving box is clipped against the sides of a convex
  brush.
 */
module TraceBrush {
  import opened TraceGeometry

  datatype Side = Side(plane: Plane, surfaceFlags: int)

  /** A brush; contents is the set of its content flags. */
  datatype Brush = Brush(contents: set<int>, mins: Vec, maxs: Vec, sides: seq<Side>)

  predicate ProperBrush(b: Brush) {
    forall i | 0 <= i < |b.sides| :: ProperPlane(b.sides[i].plane)
  }

  /** The distance of the box from side i at time t; the box touches the brush's inside only while
      no side has a positive distance. */
  function SideDistance(s: Sweep, b: Brush, i: int, t: real): real
    requires 0 <= i < |b.sides|
  {
    Distance(s, b.sides[i].plane, t)
  }

  predicate StartsOutside(s: Sweep, b: Brush) {
    exists i | 0 <= i < |b.sides| :: SideDistance(s, b, i, 0.0) > 0.0
  }

  predicate EndsOutside(s: Sweep, b: Brush) {
    exists i | 0 <= i < |b.sides| :: SideDistance(s, b, i, 1.0) > 0.0
  }

  /** The point is inside the brush or on its sides. */
  predicate Contains(b: Brush, p: Vec) {
    forall i | 0 <= i < |b.sides| :: Dot(p, b.sides[i].plane.normal) <= b.sides[i].plane.dist
  }

  /** A box with a point in the brush at the start does not start outside. */
  lemma ContainsIsInside(s: Sweep, b: Brush, v: Vec)
    requires ProperBrush(b) && InBox(v, s.mins, s.maxs) && Contains(b, Plus(s.start, v))
    ensures !StartsOutside(s, b)
  {
    hide Dot, InFront;
    BetweenAtEnds(s.start, s.end);
    forall i | 0 <= i < |b.sides| ensures SideDistance(s, b, i, 0.0) <= 0.0 {
      InFrontIsLeast(s, b.sides[i].plane, s.start, v);
    }
  }

  /** At time t the box is not more than EPSILON behind some side. */
  predicate ClearAt(s: Sweep, b: Brush, t: real) {
    exists i | 0 <= i < |b.sides| :: SideDistance(s, b, i, t) >= -EPSILON
  }

  ghost predicate ClearTo(s: Sweep, b: Brush, f: real) {
    forall t | 0.0 <= t <= f :: ClearAt(s, b, t)
  }

  /** The box is strictly in front of a side from the start to time f. */
  ghost predicate InFrontTo(s: Sweep, plane: Plane, f: real) {
    forall t | 0.0 <= t <= f :: Distance(s, plane, t) > 0.0
  }

  /** At time f the box stands an eighth of a unit before the plane, or nearer if it starts nearer. */
  predicate StopsAt(s: Sweep, plane: Plane, f: real) {
    Distance(s, plane, f) == 0.125 || (f == 0.0 && Distance(s, plane, f) <= 0.125)
  }

  /** At time t the box is at most EPSILON in front of each side. */
  predicate NearAt(s: Sweep, b: Brush, t: real) {
    forall i | 0 <= i < |b.sides| :: SideDistance(s, b, i, t) <= EPSILON
  }

  /** What clipping against the sides up to k has found: the side entered last and when, and when
      the first side was left. */
  datatype Clip = Clip(enterFrac: real, leaveFrac: real, lead: int, startout: bool, getout: bool)

  /** A side completely in front of which the box stays */
  predicate Avoids(d1: real, d2: real) {
    d1 > 0.0 && (d2 >= EPSILON || d2 >= d1)
  }

  ghost predicate Clipped(s: Sweep, b: Brush, k: nat, c: Clip)
    requires k <= |b.sides|
  {
    && (c.startout <==> exists i | 0 <= i < k :: SideDistance(s, b, i, 0.0) > 0.0)
    && (c.getout <==> exists i | 0 <= i < k :: SideDistance(s, b, i, 1.0) > 0.0)
    && (c.startout <==> c.enterFrac > -1.0)
    && (if c.enterFrac > -1.0
        then
          && 0 <= c.lead < k && 0.0 <= c.enterFrac && InFrontTo(s, b.sides[c.lead].plane, c.enterFrac)
          && StopsAt(s, b.sides[c.lead].plane, c.enterFrac)
        else c.enterFrac == -1.0 && c.lead == -1)
    && c.leaveFrac <= 1.0
    && (c.leaveFrac < 1.0 ==> exists i | 0 <= i < k :: LeavesBy(s, b.sides[i].plane, c.leaveFrac))
    && (forall i, t | 0 <= i < k && 0.0 <= t <= 1.0 && c.enterFrac <= t < c.leaveFrac ::
          SideDistance(s, b, i, t) <= EPSILON)
  }

  /** From time f on the box is not more than EPSILON behind the plane. */
  ghost predicate LeavesBy(s: Sweep, plane: Plane, f: real) {
    forall t | t >= f :: Distance(s, plane, t) >= -EPSILON
  }

  /** The time at which a falling line comes within EPSILON of the plane */
  function EnterTime(d1: real, d2: real): real
    requires d1 > d2
  {
    var f := (d1 - EPSILON) / (d1 - d2);
    if f < 0.0 then 0.0 else f
  }

  /** The time at which a rising line is still EPSILON behind the plane */
  function LeaveTime(d1: real, d2: real): real
    requires d1 < d2
  {
    var f := (d1 + EPSILON) / (d1 - d2);
    if f > 1.0 then 1.0 else f
  }

  lemma EnterTimeIs(s: Sweep, plane: Plane)
    requires
      var d1, d2 := Distance(s, plane, 0.0), Distance(s, plane, 1.0);
      d1 > d2 && d1 > 0.0
    ensures
      var f := EnterTime(Distance(s, plane, 0.0), Distance(s, plane, 1.0));
      && f >= 0.0 && InFrontTo(s, plane, f) && StopsAt(s, plane, f)
      && forall t | f <= t <= 1.0 :: Distance(s, plane, t) <= EPSILON
  {
    hide Distance, Mix;
    var d1, d2 := Distance(s, plane, 0.0), Distance(s, plane, 1.0);
    var f0, f := (d1 - EPSILON) / (d1 - d2), EnterTime(d1, d2);
    Quotient(d1 - EPSILON, d1 - d2);
    DistanceIsEven(s, plane, f);
    LineAt(d1, d2, f0, EPSILON, f);
    Falls(d1, d2, f0, EPSILON, f);
    forall t | 0.0 <= t <= f ensures Distance(s, plane, t) > 0.0 {
      DistanceIsEven(s, plane, t);
      Falls(d1, d2, f0, EPSILON, t);
    }
    forall t | f <= t <= 1.0 ensures Distance(s, plane, t) <= EPSILON {
      DistanceIsEven(s, plane, t);
      Falls(d1, d2, f0, EPSILON, t);
    }
  }

  lemma LeaveTimeIs(s: Sweep, plane: Plane)
    requires Distance(s, plane, 0.0) < Distance(s, plane, 1.0)
    ensures
      var f := LeaveTime(Distance(s, plane, 0.0), Distance(s, plane, 1.0));
      && f <= 1.0 && (f < 1.0 ==> LeavesBy(s, plane, f))
      && forall t | 0.0 <= t < f :: Distance(s, plane, t) <= EPSILON
  {
    hide Distance, Mix;
    var d1, d2 := Distance(s, plane, 0.0), Distance(s, plane, 1.0);
    var f0, f := (d1 + EPSILON) / (d1 - d2), LeaveTime(d1, d2);
    Quotient(d1 + EPSILON, d1 - d2);
    forall t | f <= t && f < 1.0 ensures Distance(s, plane, t) >= -EPSILON {
      DistanceIsEven(s, plane, t);
      Rises(d1, d2, f0, -EPSILON, t);
    }
    forall t | 0.0 <= t < f ensures Distance(s, plane, t) <= EPSILON {
      DistanceIsEven(s, plane, t);
      Rises(d1, d2, f0, -EPSILON, t);
    }
  }

  /** A side that is avoided keeps the box out of the brush all the way. */
  lemma AvoidsKeepsClear(s: Sweep, b: Brush, i: nat)
    requires i < |b.sides| && Avoids(SideDistance(s, b, i, 0.0), SideDistance(s, b, i, 1.0))
    ensures ClearTo(s, b, 1.0) && StartsOutside(s, b)
  {
    hide Distance, Mix;
    var d1, d2 := SideDistance(s, b, i, 0.0), SideDistance(s, b, i, 1.0);
    forall t | 0.0 <= t <= 1.0 ensures ClearAt(s, b, t) {
      DistanceIsEven(s, b.sides[i].plane, t);
      MixIsBetween(d1, d2, t);
      assert SideDistance(s, b, i, t) >= -EPSILON;
    }
  }

  lemma NothingClipped(s: Sweep, b: Brush)
    ensures Clipped(s, b, 0, Clip(-1.0, 1.0, -1, false, false))
  {
  }

  /** What one side adds. */
  function ClipSide(c: Clip, k: nat, d1: real, d2: real): Clip {
    var c := c.(getout := c.getout || d2 > 0.0, startout := c.startout || d1 > 0.0);
    if d1 <= 0.0 && d2 <= 0.0 then c
    else if d1 > d2 then
      var f := EnterTime(d1, d2);
      if f > c.enterFrac then c.(enterFrac := f, lead := k) else c
    else if d1 < d2 then
      var f := LeaveTime(d1, d2);
      if f < c.leaveFrac then c.(leaveFrac := f) else c
    else c
  }

  lemma StillClipped(s: Sweep, b: Brush, k: nat, c: Clip)
    requires k < |b.sides| && Clipped(s, b, k, c)
    requires
      var d1, d2 := SideDistance(s, b, k, 0.0), SideDistance(s, b, k, 1.0);
      !Avoids(d1, d2)
    ensures
      var d1, d2 := SideDistance(s, b, k, 0.0), SideDistance(s, b, k, 1.0);
      Clipped(s, b, k + 1, ClipSide(c, k, d1, d2))
  {
    hide Distance, Mix, InFrontTo, LeavesBy, StopsAt;
    var plane, d1, d2 := b.sides[k].plane, SideDistance(s, b, k, 0.0), SideDistance(s, b, k, 1.0);
    if d1 <= 0.0 && d2 <= 0.0 {
      forall t | 0.0 <= t <= 1.0 ensures SideDistance(s, b, k, t) <= EPSILON {
        DistanceIsEven(s, plane, t);
        MixIsBetween(d1, d2, t);
      }
    } else if d1 > d2 {
      EnterTimeIs(s, plane);
    } else {
      LeaveTimeIs(s, plane);
    }
  }

  /** If the clipped interval is empty, or starts only after f, the box stays clear to f. */
  lemma ClippedIsClear(s: Sweep, b: Brush, c: Clip, f: real)
    requires Clipped(s, b, |b.sides|, c) && c.startout && f <= 1.0
    requires c.enterFrac >= c.leaveFrac || c.enterFrac >= f
    ensures ClearTo(s, b, f)
  {
    hide Distance, Mix;
    forall t | 0.0 <= t <= f ensures ClearAt(s, b, t) {
      if t <= c.enterFrac {
        assert SideDistance(s, b, c.lead, t) >= -EPSILON;
      } else {
        var i :| 0 <= i < |b.sides| && LeavesBy(s, b.sides[i].plane, c.leaveFrac);
        assert SideDistance(s, b, i, t) >= -EPSILON;
      }
    }
  }

  /** A hit: the box is in front of the side that was hit until then, and then near all sides. */
  lemma ClippedIsHit(s: Sweep, b: Brush, c: Clip)
    requires Clipped(s, b, |b.sides|, c) && -1.0 < c.enterFrac < c.leaveFrac
    ensures 0 <= c.lead < |b.sides| && InFrontTo(s, b.sides[c.lead].plane, c.enterFrac)
    ensures StopsAt(s, b.sides[c.lead].plane, c.enterFrac)
    ensures ClearTo(s, b, c.enterFrac) && NearAt(s, b, c.enterFrac)
  {
    hide Distance, Mix;
    forall t | 0.0 <= t <= c.enterFrac ensures ClearAt(s, b, t) {
      assert SideDistance(s, b, c.lead, t) >= -EPSILON;
    }
  }
}
