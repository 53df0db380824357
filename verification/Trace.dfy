/**
  CM_Trace of Shared/cm_trace.c for a box that moves through the world: the tree is walked, and the
  brushes in the leaves it touches are clipped against, each once.
 */
module Trace {
  import opened TraceGeometry
  import opened Options
  import opened TraceBrush
  import opened TraceTree

  /** A leaf: the brushes that are in it */
  datatype Leaf = Leaf(brushes: seq<nat>)

  /** The box that holds the whole sweep */
  function SweepMins(s: Sweep): Vec {
    Vec((if s.start.x < s.end.x then s.start.x else s.end.x) + s.mins.x,
        (if s.start.y < s.end.y then s.start.y else s.end.y) + s.mins.y,
        (if s.start.z < s.end.z then s.start.z else s.end.z) + s.mins.z)
  }

  function SweepMaxs(s: Sweep): Vec {
    Vec((if s.start.x < s.end.x then s.end.x else s.start.x) + s.maxs.x,
        (if s.start.y < s.end.y then s.end.y else s.start.y) + s.maxs.y,
        (if s.start.z < s.end.z then s.end.z else s.start.z) + s.maxs.z)
  }

  /** CM_BoundsIntersect */
  predicate BoundsIntersect(mins: Vec, maxs: Vec, mins2: Vec, maxs2: Vec) {
    !(|| maxs.x < mins2.x - EPSILON || maxs.y < mins2.y - EPSILON || maxs.z < mins2.z - EPSILON
      || mins.x > maxs2.x + EPSILON || mins.y > maxs2.y + EPSILON || mins.z > maxs2.z + EPSILON)
  }

  /** A brush starts with six axial sides, which are its bounds (CM_BoundBrush). */
  predicate Bounded(b: Brush) {
    && |b.sides| >= 6
    && b.sides[0].plane.normal == Vec(-1.0, 0.0, 0.0) && b.mins.x == -b.sides[0].plane.dist
    && b.sides[1].plane.normal == Vec(1.0, 0.0, 0.0) && b.maxs.x == b.sides[1].plane.dist
    && b.sides[2].plane.normal == Vec(0.0, -1.0, 0.0) && b.mins.y == -b.sides[2].plane.dist
    && b.sides[3].plane.normal == Vec(0.0, 1.0, 0.0) && b.maxs.y == b.sides[3].plane.dist
    && b.sides[4].plane.normal == Vec(0.0, 0.0, -1.0) && b.mins.z == -b.sides[4].plane.dist
    && b.sides[5].plane.normal == Vec(0.0, 0.0, 1.0) && b.maxs.z == b.sides[5].plane.dist
  }

  lemma BoundedHasSides(b: Brush)
    requires Bounded(b)
    ensures b.sides != []
  {
  }

  /** The side whose bound keeps the sweep away from the brush, if there is one */
  function Apart(s: Sweep, b: Brush): nat {
    if SweepMaxs(s).x < b.mins.x - EPSILON then 0
    else if SweepMins(s).x > b.maxs.x + EPSILON then 1
    else if SweepMaxs(s).y < b.mins.y - EPSILON then 2
    else if SweepMins(s).y > b.maxs.y + EPSILON then 3
    else if SweepMaxs(s).z < b.mins.z - EPSILON then 4
    else 5
  }

  /** A brush whose bounds the sweep does not meet is not touched. */
  lemma ApartIsClear(s: Sweep, b: Brush)
    requires ProperBrush(b) && Bounded(b) && !BoundsIntersect(SweepMins(s), SweepMaxs(s), b.mins, b.maxs)
    ensures ClearTo(s, b, 1.0) && StartsOutside(s, b)
  {
    ApartAt(s, b, 0.0);
    forall t | 0.0 <= t <= 1.0 ensures ClearAt(s, b, t) {
      ApartAt(s, b, t);
      assert SideDistance(s, b, Apart(s, b), t) >= -EPSILON;
    }
  }

  lemma ApartAt(s: Sweep, b: Brush, t: real)
    requires ProperBrush(b) && Bounded(b) && !BoundsIntersect(SweepMins(s), SweepMaxs(s), b.mins, b.maxs)
    requires 0.0 <= t <= 1.0
    ensures SideDistance(s, b, Apart(s, b), t) > EPSILON
  {
    hide Mix;
    MixIsBetween(s.start.x, s.end.x, t);
    MixIsBetween(s.start.y, s.end.y, t);
    MixIsBetween(s.start.z, s.end.z, t);
    hide Between, ProperBrush;
    AxialDistance(s, b, Apart(s, b), t);
    hide Distance;
  }

  /** The distance from an axial side */
  lemma AxialDistance(s: Sweep, b: Brush, i: nat, t: real)
    requires ProperBrush(b) && Bounded(b) && i < 6
    ensures
      var p := Between(s.start, s.end, t);
      SideDistance(s, b, i, t) ==
        if i == 0 then b.mins.x - (p.x + s.maxs.x) else if i == 1 then p.x + s.mins.x - b.maxs.x
        else if i == 2 then b.mins.y - (p.y + s.maxs.y) else if i == 3 then p.y + s.mins.y - b.maxs.y
        else if i == 4 then b.mins.z - (p.z + s.maxs.z) else p.z + s.mins.z - b.maxs.z
  {
    hide Between, Corner, SignBits, Dot;
    var plane, p := b.sides[i].plane, Between(s.start, s.end, t);
    CornerIs(s.mins, s.maxs, plane.normal);
    AxialDot(p, plane.normal);
    AxialDot(Corner(s.mins, s.maxs, plane.signbits), plane.normal);
  }

  lemma CornerIs(mins: Vec, maxs: Vec, n: Vec)
    ensures
      var c := Corner(mins, maxs, SignBits(n));
      && c.x == (if n.x < 0.0 then maxs.x else mins.x)
      && c.y == (if n.y < 0.0 then maxs.y else mins.y)
      && c.z == (if n.z < 0.0 then maxs.z else mins.z)
  {
    SignBitsAre(n);
  }

  lemma AxialDot(p: Vec, n: Vec)
    ensures n.y == n.z == 0.0 && n.x == 1.0 ==> Dot(p, n) == p.x
    ensures n.y == n.z == 0.0 && n.x == -1.0 ==> Dot(p, n) == -p.x
    ensures n.x == n.z == 0.0 && n.y == 1.0 ==> Dot(p, n) == p.y
    ensures n.x == n.z == 0.0 && n.y == -1.0 ==> Dot(p, n) == -p.y
    ensures n.x == n.y == 0.0 && n.z == 1.0 ==> Dot(p, n) == p.z
    ensures n.x == n.y == 0.0 && n.z == -1.0 ==> Dot(p, n) == -p.z
  {
  }

  /** The corners of a box by sign bits, as CM_Trace sets them up */
  function Offsets(mins: Vec, maxs: Vec): seq<Vec> {
    [Vec(mins.x, mins.y, mins.z), Vec(maxs.x, mins.y, mins.z), Vec(mins.x, maxs.y, mins.z), Vec(maxs.x, maxs.y, mins.z),
     Vec(mins.x, mins.y, maxs.z), Vec(maxs.x, mins.y, maxs.z), Vec(mins.x, maxs.y, maxs.z), Vec(maxs.x, maxs.y, maxs.z)]
  }

  lemma OffsetsAreCorners(mins: Vec, maxs: Vec, bits: int)
    requires 0 <= bits < 8
    ensures Offsets(mins, maxs)[bits] == Corner(mins, maxs, bits)
  {
  }

  /** The world that is moved through */
  class World {
    const nodes: seq<Node>
    const leafs: seq<Leaf>
    const brushes: seq<Brush>
    var checkcount: int
    const checked: array<int>

    /** nodes are ranked from the leaves up. */
    ghost const rank: seq<nat>

    ghost predicate Proper()
      reads this
    {
      && ProperTree(nodes, |leafs|, rank) && checked.Length == |brushes|
      && (forall i | 0 <= i < |leafs| :: forall k | 0 <= k < |leafs[i].brushes| :: leafs[i].brushes[k] < |brushes|)
      && (forall i | 0 <= i < |brushes| :: ProperBrush(brushes[i]) && Bounded(brushes[i]))
    }
  }

  /** In the sweep between two times, before it ends at `fraction`, every leaf that the box touches
      below node num has been visited. */
  ghost predicate Covers(nodes: seq<Node>, leafs: int, rank: seq<nat>, s: Sweep, isPoint: bool, num: int,
                         t1: real, t2: real, fraction: real, visited: set<int>)
  {
    && ProperTree(nodes, leafs, rank) && -leafs <= num < |nodes|
    && forall t | t1 <= t <= t2 && t < fraction :: Touched(nodes, leafs, rank, s, isPoint, num, Place(s, t)) <= visited
  }

  lemma CoversStill(nodes: seq<Node>, leafs: int, rank: seq<nat>, s: Sweep, isPoint: bool, num: int,
                    t1: real, t2: real, f: real, visited: set<int>, f': real, visited': set<int>)
    requires Covers(nodes, leafs, rank, s, isPoint, num, t1, t2, f, visited) && f' <= f && visited <= visited'
    ensures Covers(nodes, leafs, rank, s, isPoint, num, t1, t2, f', visited')
  {
  }

  /** How node num splits the sweep between two times */
  function SplitAt(s: Sweep, isPoint: bool, p: Plane, t1: real, t2: real): Split {
    SplitOf(FromPlane(p, Place(s, t1)), FromPlane(p, Place(s, t2)), Reach(s, isPoint, p))
  }

  function NearTime(s: Sweep, isPoint: bool, p: Plane, t1: real, t2: real): real {
    Mix(t1, t2, SplitAt(s, isPoint, p, t1, t2).near)
  }

  function FarTime(s: Sweep, isPoint: bool, p: Plane, t1: real, t2: real): real {
    Mix(t1, t2, SplitAt(s, isPoint, p, t1, t2).far)
  }

  lemma CoveredAt(nodes: seq<Node>, leafs: int, rank: seq<nat>, s: Sweep, isPoint: bool, num: int,
                  t1: real, t2: real, fraction: real, visited: set<int>, t: real)
    requires Covers(nodes, leafs, rank, s, isPoint, num, t1, t2, fraction, visited)
    ensures ProperTree(nodes, leafs, rank) && -leafs <= num < |nodes|
    ensures t1 <= t <= t2 && t < fraction ==> Touched(nodes, leafs, rank, s, isPoint, num, Place(s, t)) <= visited
  {
    hide Touched, Place;
  }

  lemma TouchedByChildren(nodes: seq<Node>, leafs: int, rank: seq<nat>, s: Sweep, isPoint: bool, num: int, n: Node,
          q: Vec)
    requires ProperTree(nodes, leafs, rank) && 0 <= num < |nodes| && n == nodes[num]
    ensures -leafs <= n.front < |nodes| && -leafs <= n.back < |nodes| && ProperPlane(n.plane)
    ensures Touched(nodes, leafs, rank, s, isPoint, num, q)
      == (if ReachesFront(s, isPoint, n.plane, q) then Touched(nodes, leafs, rank, s, isPoint, n.front, q) else {})
       + (if ReachesBack(s, isPoint, n.plane, q) then Touched(nodes, leafs, rank, s, isPoint, n.back, q) else {})
  {
    hide ReachesFront, ReachesBack;
  }

  /** Walking both children as the node splits the segment covers the node. */
  lemma SplitIsCovered(nodes: seq<Node>, leafs: int, rank: seq<nat>, s: Sweep, isPoint: bool, num: int, n: Node,
          frontFirst: bool, t1: real, near: real, far: real, t2: real, fraction: real, visited: set<int>)
    requires ProperTree(nodes, leafs, rank) && 0 <= num < |nodes| && t1 <= t2 && n == nodes[num]
    requires frontFirst == SplitAt(s, isPoint, n.plane, t1, t2).frontFirst
    requires near == NearTime(s, isPoint, n.plane, t1, t2) && far == FarTime(s, isPoint, n.plane, t1, t2)
    requires Covers(nodes, leafs, rank, s, isPoint, if frontFirst then n.front else n.back, t1, near, fraction, visited)
    requires Covers(nodes, leafs, rank, s, isPoint, if frontFirst then n.back else n.front, far, t2, fraction, visited)
    ensures Covers(nodes, leafs, rank, s, isPoint, num, t1, t2, fraction, visited)
  {
    hide Touched, Place, SplitAt, NearTime, FarTime;
    forall t | t1 <= t <= t2 && t < fraction
      ensures Touched(nodes, leafs, rank, s, isPoint, num, Place(s, t)) <= visited
    {
      SplitIsCoveredAt(nodes, leafs, rank, s, isPoint, num, n, frontFirst, t1, near, far, t2, fraction, visited, t);
    }
  }

  lemma SplitIsCoveredAt(nodes: seq<Node>, leafs: int, rank: seq<nat>, s: Sweep, isPoint: bool, num: int, n: Node,
          frontFirst: bool, t1: real, near: real, far: real, t2: real, fraction: real, visited: set<int>, t: real)
    requires ProperTree(nodes, leafs, rank) && 0 <= num < |nodes| && t1 <= t <= t2 && t < fraction && n == nodes[num]
    requires frontFirst == SplitAt(s, isPoint, n.plane, t1, t2).frontFirst
    requires near == NearTime(s, isPoint, n.plane, t1, t2) && far == FarTime(s, isPoint, n.plane, t1, t2)
    requires Covers(nodes, leafs, rank, s, isPoint, if frontFirst then n.front else n.back, t1, near, fraction, visited)
    requires Covers(nodes, leafs, rank, s, isPoint, if frontFirst then n.back else n.front, far, t2, fraction, visited)
    ensures Touched(nodes, leafs, rank, s, isPoint, num, Place(s, t)) <= visited
  {
    hide Mix, SplitOf, Place, FromPlane, Reach, ReachesFront, ReachesBack, Touched, ProperTree, ProperPlane, Covers;
    TouchedByChildren(nodes, leafs, rank, s, isPoint, num, n, Place(s, t));
    SplitCoversTime(s, isPoint, n.plane, t1, t2, t);
    CoveredAt(nodes, leafs, rank, s, isPoint, if frontFirst then n.front else n.back, t1, near, fraction, visited, t);
    CoveredAt(nodes, leafs, rank, s, isPoint, if frontFirst then n.back else n.front, far, t2, fraction, visited, t);
  }

  /** If both ends are far on one side, walking that side's child covers the node. */
  lemma FarAwayIsCovered(nodes: seq<Node>, leafs: int, rank: seq<nat>, s: Sweep, isPoint: bool, num: int, n: Node,
          front: bool, t1: real, t2: real, d1: real, d2: real, reach: real, fraction: real, visited: set<int>)
    requires ProperTree(nodes, leafs, rank) && 0 <= num < |nodes| && t1 <= t2 && n == nodes[num]
    requires d1 == FromPlane(n.plane, Place(s, t1)) && d2 == FromPlane(n.plane, Place(s, t2))
    requires reach == Reach(s, isPoint, n.plane)
    requires if front then d1 >= reach + 1.0 && d2 >= reach + 1.0 else d1 < -reach - 1.0 && d2 < -reach - 1.0
    requires Covers(nodes, leafs, rank, s, isPoint, if front then n.front else n.back, t1, t2, fraction, visited)
    ensures Covers(nodes, leafs, rank, s, isPoint, num, t1, t2, fraction, visited)
  {
    forall t | t1 <= t <= t2 && t < fraction
      ensures Touched(nodes, leafs, rank, s, isPoint, num, Place(s, t)) <= visited
    {
      hide Place, FromPlane, Reach, ReachesFront, ReachesBack, Touched, ProperTree, ProperPlane, Covers;
      TouchedByChildren(nodes, leafs, rank, s, isPoint, num, n, Place(s, t));
      FarAway(s, isPoint, n.plane, t1, t2, t);
      CoveredAt(nodes, leafs, rank, s, isPoint, if front then n.front else n.back, t1, t2, fraction, visited, t);
    }
  }

  class Work {
    const world: World
    const sweep: Sweep
    const offsets: seq<Vec>
    const isPoint: bool
    const contents: set<int>

    var fraction: real
    var startsolid: bool
    var allsolid: bool
    var plane: Option<Plane>
    var surfaceFlags: int
    var hitContents: set<int>
    var endpos: Vec

    // the leaves that have been handed to CM_TraceThroughLeaf
    ghost var visited: set<int>

    /** The set-up of CM_Trace: the box is made symmetric, and the sweep moved accordingly. */
    constructor (world: World, start: Vec, end: Vec, mins: Vec, maxs: Vec, brushmask: set<int>)
      requires world.Proper() && mins.x <= maxs.x && mins.y <= maxs.y && mins.z <= maxs.z
      requires forall i | 0 <= i < |world.brushes| :: world.checked[i] < world.checkcount
      ensures Valid() && this.world == world && contents == brushmask && fraction == 1.0 && visited == {}
      ensures !startsolid && !allsolid && plane == None
      ensures
        var offset := Vec((mins.x + maxs.x) * 0.5, (mins.y + maxs.y) * 0.5, (mins.z + maxs.z) * 0.5);
        && sweep.start == Plus(start, offset) && sweep.end == Plus(end, offset)
        && sweep.mins == Vec(-sweep.maxs.x, -sweep.maxs.y, -sweep.maxs.z)
        && Plus(sweep.mins, offset) == mins && Plus(sweep.maxs, offset) == maxs
        && (isPoint ==> sweep.maxs == Vec(0.0, 0.0, 0.0))
    {
      var offset := Vec((mins.x + maxs.x) * 0.5, (mins.y + maxs.y) * 0.5, (mins.z + maxs.z) * 0.5);
      var size0 := Vec(mins.x - offset.x, mins.y - offset.y, mins.z - offset.z);
      var size1 := Vec(maxs.x - offset.x, maxs.y - offset.y, maxs.z - offset.z);
      this.world, contents, fraction, visited := world, brushmask, 1.0, {};
      startsolid, allsolid, plane, surfaceFlags, hitContents := false, false, None, 0, {};
      endpos := Vec(0.0, 0.0, 0.0);
      sweep := Sweep(Plus(start, offset), Plus(end, offset), size0, size1);
      offsets := Offsets(size0, size1);
      isPoint := size0 == Vec(0.0, 0.0, 0.0);
    }

    /** For the trace so far: a brush that has been checked is clear up to the fraction, unless the
        box starts inside it. */
    ghost predicate Passed(b: Brush)
      reads this
    {
      b.contents * contents != {} && StartsOutside(sweep, b) ==> ClearTo(sweep, b, fraction)
    }

    /** What ended the trace early: the box is inside a brush all the way, or it is close to a brush
        whose recorded side it has been in front of. */
    ghost predicate Ended()
      reads this, world, world.checked
    {
      && world.checked.Length == |world.brushes|
      && exists i | 0 <= i < |world.brushes| && world.checked[i] == world.checkcount :: EndedBy(world.brushes[i])
    }

    ghost predicate EndedBy(b: Brush)
      reads this
    {
      && b.contents * contents != {} && hitContents == b.contents
      && if StartsOutside(sweep, b)
         then
           && plane.Some? && Side(plane.value, surfaceFlags) in b.sides
           && StopsAt(sweep, plane.value, fraction) && NearAt(sweep, b, fraction)
         else allsolid && fraction == 0.0 && !EndsOutside(sweep, b)
    }

    /** The box starts inside a brush that matches; or starts there and does not get out. */
    ghost predicate Holds(b: Brush, toEnd: bool) {
      b.contents * contents != {} && !StartsOutside(sweep, b) && (toEnd ==> !EndsOutside(sweep, b))
    }

    /** Among the brushes that have been checked is one that holds the box. */
    ghost predicate Held(checked: seq<int>, count: int, toEnd: bool)
      requires |checked| == |world.brushes|
    {
      exists i | 0 <= i < |checked| && checked[i] == count :: Holds(world.brushes[i], toEnd)
    }

    lemma HeldByOneMore(checked: seq<int>, count: int, k: nat)
      requires |checked| == |world.brushes| && k < |checked| && checked[k] != count
      ensures forall toEnd ::
        Held(checked[k := count], count, toEnd) <==> Held(checked, count, toEnd) || Holds(world.brushes[k], toEnd)
    {
      hide Holds;
      var more := checked[k := count];
      forall toEnd
        ensures Held(more, count, toEnd) <==> Held(checked, count, toEnd) || Holds(world.brushes[k], toEnd)
      {
        assert more[k] == count;
        if Held(checked, count, toEnd) {
          var i :| 0 <= i < |checked| && checked[i] == count && Holds(world.brushes[i], toEnd);
          assert more[i] == count;
        }
      }
    }

    /** The flags say whether the box starts in a brush that has been checked, and whether it stays in one. */
    ghost predicate Solid()
      reads this, world, world.checked
    {
      && world.checked.Length == |world.brushes|
      && (startsolid <==> Held(world.checked[..], world.checkcount, false))
      && (allsolid <==> Held(world.checked[..], world.checkcount, true))
    }

    /** The brushes of the leaves that have been visited have been checked. */
    ghost predicate Seen()
      reads this, world, world.checked
    {
      && world.Proper()
      && (forall l | l in visited :: 0 <= l < |world.leafs|)
      && (forall l, k | l in visited && 0 <= k < |world.leafs[l].brushes| ::
            fraction == 0.0 || world.checked[world.leafs[l].brushes[k]] == world.checkcount)
    }

    /** What has been found is right. */
    ghost predicate Right()
      reads this, world, world.checked
    {
      && (plane.Some? ==> InFrontTo(sweep, plane.value, fraction))
      && (fraction < 1.0 ==> Ended()) && (allsolid ==> fraction == 0.0)
      && world.Proper() && 0.0 <= fraction <= 1.0 && ProperSweep(sweep)
      && offsets == Offsets(sweep.mins, sweep.maxs)
      && (forall i | 0 <= i < |world.brushes| ::
            && world.checked[i] <= world.checkcount
            && (world.checked[i] == world.checkcount ==> Passed(world.brushes[i])))
    }

    ghost predicate Valid()
      reads this, world, world.checked
    {
      Right() && Solid() && Seen()
    }

    /** CM_TraceThroughBrush */
    method TraceThroughBrush(b: Brush)
      requires ProperBrush(b) && ProperSweep(sweep) && 0.0 <= fraction <= 1.0
      requires offsets == Offsets(sweep.mins, sweep.maxs)
      modifies this`fraction, this`startsolid, this`allsolid, this`plane, this`surfaceFlags, this`hitContents
      ensures 0.0 <= fraction <= old(fraction)
      ensures StartsOutside(sweep, b) ==> ClearTo(sweep, b, fraction)
      ensures StartsOutside(sweep, b) && fraction < old(fraction) ==>
        && plane.Some? && Side(plane.value, surfaceFlags) in b.sides && hitContents == b.contents
        && InFrontTo(sweep, plane.value, fraction) && StopsAt(sweep, plane.value, fraction)
        && NearAt(sweep, b, fraction)
      ensures StartsOutside(sweep, b) && fraction == old(fraction) ==>
        plane == old(plane) && surfaceFlags == old(surfaceFlags) && hitContents == old(hitContents)
      ensures startsolid <==> old(startsolid) || (!StartsOutside(sweep, b) && b.sides != [])
      ensures allsolid <==> old(allsolid) || (!StartsOutside(sweep, b) && b.sides != [] && !EndsOutside(sweep, b))
      ensures !StartsOutside(sweep, b) && b.sides != [] && !EndsOutside(sweep, b) ==>
        && fraction == 0.0 && hitContents == b.contents
        && plane == old(plane) && surfaceFlags == old(surfaceFlags)
      ensures !StartsOutside(sweep, b) && (b.sides == [] || EndsOutside(sweep, b)) ==>
        && fraction == old(fraction) && plane == old(plane) && surfaceFlags == old(surfaceFlags)
        && hitContents == old(hitContents)
    {
      hide Distance, InFrontTo, ClearTo, NearAt, StopsAt;
      var enterFrac, leaveFrac, lead := -1.0, 1.0, -1;
      if |b.sides| == 0 {
        return;
      }
      var getout, startout := false, false;
      NothingClipped(sweep, b);
      var i := 0;
      while i < |b.sides|
        invariant unchanged(this)
        invariant 0 <= i <= |b.sides| && Clipped(sweep, b, i, Clip(enterFrac, leaveFrac, lead, startout, getout))
      {
        var avoided;
        avoided, enterFrac, leaveFrac, lead, startout, getout :=
          ClipAgainst(b, i, enterFrac, leaveFrac, lead, startout, getout);
        if avoided {
          ClearBefore(sweep, b, 1.0, fraction);
          return;
        }
        i := i + 1;
      }
      ghost var c := Clip(enterFrac, leaveFrac, lead, startout, getout);
      if !startout {
        startsolid := true;
        if !getout {
          allsolid := true;
          fraction := 0.0;
          hitContents := b.contents;
        }
        return;
      }
      if enterFrac >= leaveFrac || enterFrac >= fraction {
        ClippedIsClear(sweep, b, c, fraction);
      } else {
        ClippedIsHit(sweep, b, c);
      }
      if enterFrac < leaveFrac {
        if enterFrac > -1.0 && enterFrac < fraction {
          fraction := enterFrac;
          plane := Some(b.sides[lead].plane);
          surfaceFlags := b.sides[lead].surfaceFlags;
          hitContents := b.contents;
        }
      }
    }

    /** The loop of CM_TraceThroughBrush for one side. */
    method ClipAgainst(b: Brush, i: nat, enterFrac0: real, leaveFrac0: real, lead0: int, startout0: bool, getout0: bool)
      returns (avoided: bool, enterFrac: real, leaveFrac: real, lead: int, startout: bool, getout: bool)
      requires ProperBrush(b) && i < |b.sides| && offsets == Offsets(sweep.mins, sweep.maxs)
      requires Clipped(sweep, b, i, Clip(enterFrac0, leaveFrac0, lead0, startout0, getout0))
      ensures avoided ==> ClearTo(sweep, b, 1.0) && StartsOutside(sweep, b)
      ensures !avoided ==> Clipped(sweep, b, i + 1, Clip(enterFrac, leaveFrac, lead, startout, getout))
    {
      hide Distance, InFrontTo, ClearTo, Clipped;
      avoided, enterFrac, leaveFrac, lead, startout, getout := false, enterFrac0, leaveFrac0, lead0, startout0, getout0;
      var p := b.sides[i].plane;
      DistancesAre(sweep, p);
      OffsetsAreCorners(sweep.mins, sweep.maxs, p.signbits);
      var dist := p.dist - Dot(offsets[p.signbits], p.normal);
      var d1 := Dot(sweep.start, p.normal) - dist;
      var d2 := Dot(sweep.end, p.normal) - dist;
      assert d1 == SideDistance(sweep, b, i, 0.0) && d2 == SideDistance(sweep, b, i, 1.0);
      if d2 > 0.0 {
        getout := true;
      }
      if d1 > 0.0 {
        startout := true;
      }
      if d1 > 0.0 && (d2 >= EPSILON || d2 >= d1) {
        AvoidsKeepsClear(sweep, b, i);
        avoided := true;
        return;
      }
      StillClipped(sweep, b, i, Clip(enterFrac0, leaveFrac0, lead0, startout0, getout0));
      if d1 <= 0.0 && d2 <= 0.0 {
        return;
      }
      if d1 > d2 {
        var f := (d1 - EPSILON) / (d1 - d2);
        if f < 0.0 {
          f := 0.0;
        }
        if f > enterFrac {
          enterFrac := f;
          lead := i;
        }
      } else {
        var f := (d1 + EPSILON) / (d1 - d2);
        if f > 1.0 {
          f := 1.0;
        }
        if f < leaveFrac {
          leaveFrac := f;
        }
      }
    }

    /** CM_TraceThroughLeaf, its brushes */
    method TraceThroughLeaf(leaf: int)
      requires Valid() && 0 <= leaf < |world.leafs|
      modifies this, world.checked
      ensures Valid() && fraction <= old(fraction) && visited == old(visited) + {leaf}
    {
      hide Right, Solid;
      var brushes := world.leafs[leaf].brushes;
      var k := 0;
      while k < |brushes|
        invariant 0 <= k <= |brushes| && Valid() && fraction <= old(fraction) && visited == old(visited)
        invariant forall j | 0 <= j < k :: world.checked[brushes[j]] == world.checkcount
      {
        TraceLeafBrush(brushes[k]);
        k := k + 1;
        if fraction == 0.0 {
          Visit(leaf);
          return;
        }
      }
      Visit(leaf);
    }

    /** A leaf has been passed. */
    ghost method Visit(leaf: int)
      requires Valid() && 0 <= leaf < |world.leafs|
      requires forall k | 0 <= k < |world.leafs[leaf].brushes| ::
        fraction == 0.0 || world.checked[world.leafs[leaf].brushes[k]] == world.checkcount
      modifies this`visited
      ensures Valid() && visited == old(visited) + {leaf}
    {
      visited := visited + {leaf};
    }

    /** One turn of the loop of CM_TraceThroughLeaf. */
    method TraceLeafBrush(brushnum: nat)
      requires Valid() && brushnum < |world.brushes|
      modifies this`fraction, this`startsolid, this`allsolid, this`plane, this`surfaceFlags, this`hitContents,
        world.checked
      ensures Valid() && fraction <= old(fraction)
      ensures forall i | 0 <= i < |world.brushes| ::
        world.checked[i] == if i == brushnum then world.checkcount else old(world.checked[i])
    {
      hide ProperBrush, Bounded, ProperTree, ClearTo, StartsOutside, BoundsIntersect, NearAt, InFrontTo,
        StopsAt, EndsOutside;
      var b := world.brushes[brushnum];
      if world.checked[brushnum] == world.checkcount {
        return;
      }
      ghost var checked := world.checked[..];
      HeldByOneMore(checked, world.checkcount, brushnum);
      hide Held;
      if b.contents * contents == {} {
        world.checked[brushnum] := world.checkcount;
        assert world.checked[..] == checked[brushnum := world.checkcount];
        return;
      }
      if !BoundsIntersect(SweepMins(sweep), SweepMaxs(sweep), b.mins, b.maxs) {
        ApartIsClear(sweep, b);
        ClearBefore(sweep, b, 1.0, fraction);
        world.checked[brushnum] := world.checkcount;
        assert world.checked[..] == checked[brushnum := world.checkcount];
        return;
      }
      BoundedHasSides(b);
      CheckBrush(brushnum);
      assert world.checked[..] == checked[brushnum := world.checkcount];
    }

    /** The part of the loop for a brush that matches and whose bounds the sweep meets */
    method CheckBrush(brushnum: nat)
      requires Right() && brushnum < |world.brushes| && world.brushes[brushnum].sides != []
      requires world.brushes[brushnum].contents * contents != {}
      modifies this`fraction, this`startsolid, this`allsolid, this`plane, this`surfaceFlags, this`hitContents,
        world.checked
      ensures Right() && fraction <= old(fraction)
      ensures startsolid <==> old(startsolid) || Holds(world.brushes[brushnum], false)
      ensures allsolid <==> old(allsolid) || Holds(world.brushes[brushnum], true)
      ensures forall i | 0 <= i < |world.brushes| ::
        world.checked[i] == if i == brushnum then world.checkcount else old(world.checked[i])
    {
      hide ProperBrush, Bounded, ProperTree, ClearTo, StartsOutside, NearAt, InFrontTo, StopsAt, EndsOutside;
      var b := world.brushes[brushnum];
      ghost var f := fraction;
      ghost var p, ended := plane, if fraction < 1.0 then EndingBrush() else brushnum;
      TraceThroughBrush(b);
      if p.Some? { InFrontBefore(sweep, p.value, f, fraction); }
      assert fraction < 1.0 ==> EndedBy(b) || EndedBy(world.brushes[ended]);
      forall i | 0 <= i < |world.brushes| && world.checked[i] == world.checkcount ensures Passed(world.brushes[i]) {
        if StartsOutside(sweep, world.brushes[i]) && world.brushes[i].contents * contents != {} {
          ClearBefore(sweep, world.brushes[i], f, fraction);
        }
      }
      world.checked[brushnum] := world.checkcount;
      assert fraction < 1.0 ==>
        && world.checked[brushnum] == world.checked[ended] == world.checkcount
        && (EndedBy(world.brushes[brushnum]) || EndedBy(world.brushes[ended]));
    }

    /** A brush that ended the trace */
    ghost function EndingBrush(): (i: nat)
      requires Right() && fraction < 1.0
      reads this, world, world.checked
      ensures i < |world.brushes| && world.checked[i] == world.checkcount && EndedBy(world.brushes[i])
    {
      var i: nat :| i < |world.brushes| && world.checked[i] == world.checkcount && EndedBy(world.brushes[i]);
      i
    }

    /** Between two times, before the fraction, every leaf touched below node num has been visited. */
    ghost predicate Covered(num: int, t1: real, t2: real)
      reads this
    {
      Covers(world.nodes, |world.leafs|, world.rank, sweep, isPoint, num, t1, t2, fraction, visited)
    }

    /** CM_TraceThroughTree */
    method TraceThroughTree(num: int, p1f: real, p2f: real, p1: Vec, p2: Vec)
      requires Valid() && -|world.leafs| <= num < |world.nodes| && 0.0 <= p1f <= p2f <= 1.0
      requires p1 == Place(sweep, p1f) && p2 == Place(sweep, p2f)
      modifies this, world.checked
      ensures Valid() && fraction <= old(fraction) && old(visited) <= visited
      ensures Covered(num, p1f, p2f)
      decreases RankOf(num, world.rank)
    {
      hide Covers, Place, FromPlane, Reach, SplitOf, Passed;
      if fraction <= p1f {
        NothingLeft(num, p1f, p2f);
        return;
      }
      if num < 0 {
        TraceThroughLeaf(-1 - num);
        LeafIsCovered(num, p1f, p2f);
        return;
      }
      var node := world.nodes[num];
      TouchedByChildren(world.nodes, |world.leafs|, world.rank, sweep, isPoint, num, node, p1);
      var t1, t2, offset := FromPlane(node.plane, p1), FromPlane(node.plane, p2), Reach(sweep, isPoint, node.plane);
      if t1 >= offset + 1.0 && t2 >= offset + 1.0 {
        TraceThroughTree(node.front, p1f, p2f, p1, p2);
        FarAwayIsCovered(world.nodes, |world.leafs|, world.rank, sweep, isPoint, num, node, true, p1f, p2f, t1, t2,
          offset, fraction, visited);
        return;
      }
      if t1 < -offset - 1.0 && t2 < -offset - 1.0 {
        TraceThroughTree(node.back, p1f, p2f, p1, p2);
        FarAwayIsCovered(world.nodes, |world.leafs|, world.rank, sweep, isPoint, num, node, false, p1f, p2f, t1, t2,
          offset, fraction, visited);
        return;
      }
      TraceThroughBoth(num, node, p1f, p2f, p1, p2, t1, t2, offset);
    }

    /** The last part of CM_TraceThroughTree: both children are walked. */
    method TraceThroughBoth(num: int, node: Node, p1f: real, p2f: real, p1: Vec, p2: Vec, t1: real, t2: real,
            offset: real)
      requires Valid() && 0 <= num < |world.nodes| && node == world.nodes[num] && 0.0 <= p1f <= p2f <= 1.0
      requires p1 == Place(sweep, p1f) && p2 == Place(sweep, p2f)
      requires t1 == FromPlane(node.plane, p1) && t2 == FromPlane(node.plane, p2)
      requires offset == Reach(sweep, isPoint, node.plane)
      modifies this, world.checked
      ensures Valid() && fraction <= old(fraction) && old(visited) <= visited
      ensures Covered(num, p1f, p2f)
      decreases RankOf(num, world.rank), 0
    {
      hide Covers, Place, FromPlane, Reach, Passed, Between, SplitOf, Mix;
      TouchedByChildren(world.nodes, |world.leafs|, world.rank, sweep, isPoint, num, node, p1);
      ChildrenAreBelow(world.nodes, |world.leafs|, world.rank, num);
      var frontFirst, frac, frac2 := SplitSegment(t1, t2, offset);
      assert SplitAt(sweep, isPoint, node.plane, p1f, p2f) == Split(frontFirst, frac, frac2);
      MiddleIs(p1f, p2f, frac);
      MiddleIs(p1f, p2f, frac2);
      var midf, midf2 := Mix(p1f, p2f, frac), Mix(p1f, p2f, frac2);
      var first, second := if frontFirst then node.front else node.back, if frontFirst then node.back else node.front;
      TraceThroughTree(first, p1f, midf, p1, Between(p1, p2, frac));
      ghost var f, seen := fraction, visited;
      TraceThroughTree(second, midf2, p2f, Between(p1, p2, frac2), p2);
      CoversStill(world.nodes, |world.leafs|, world.rank, sweep, isPoint, first, p1f, midf, f, seen, fraction, visited);
      SplitIsCovered(world.nodes, |world.leafs|, world.rank, sweep, isPoint, num, node, frontFirst,
                     p1f, midf, midf2, p2f, fraction, visited);
    }

    /** Where the segment crosses the plane, EPSILON on the near side */
    method SplitSegment(t1: real, t2: real, offset: real) returns (frontFirst: bool, frac: real, frac2: real)
      ensures Split(frontFirst, frac, frac2) == SplitOf(t1, t2, offset)
      ensures 0.0 <= frac <= 1.0 && 0.0 <= frac2 <= 1.0
    {
      if t1 < t2 {
        frontFirst := false;
        frac2 := (t1 + offset + EPSILON) / (t1 - t2);
        frac := (t1 - offset + EPSILON) / (t1 - t2);
      } else if t1 > t2 {
        frontFirst := true;
        frac2 := (t1 - offset - EPSILON) / (t1 - t2);
        frac := (t1 + offset + EPSILON) / (t1 - t2);
      } else {
        frontFirst := true;
        frac := 1.0;
        frac2 := 0.0;
      }
      frac, frac2 := Clamp(frac), Clamp(frac2);
    }

    lemma MiddleIs(t1: real, t2: real, f: real)
      requires 0.0 <= f <= 1.0 && t1 <= t2
      ensures t1 <= Mix(t1, t2, f) <= t2
      ensures Between(Place(sweep, t1), Place(sweep, t2), f) == Place(sweep, Mix(t1, t2, f))
    {
      hide Mix, Place, Between;
      PlaceBetween(sweep, t1, t2, f);
      MixIsBetween(t1, t2, f);
    }

    /** Wherever the box is before the trace ends, each brush in each leaf that it touches there has
        been passed. */
    ghost predicate ClearOf()
      reads this
    {
      && ProperTree(world.nodes, |world.leafs|, world.rank) && |world.nodes| > 0
      && forall t | 0.0 <= t <= 1.0 && t < fraction ::
           PassedAll(Touched(world.nodes, |world.leafs|, world.rank, sweep, isPoint, 0, Place(sweep, t)))
    }

    /** The brushes of these leaves have been passed. */
    ghost predicate PassedAll(leafs: set<int>)
      reads this
    {
      forall l, k | l in leafs && 0 <= l < |world.leafs| && 0 <= k < |world.leafs[l].brushes| ::
        world.leafs[l].brushes[k] < |world.brushes| && Passed(world.brushes[world.leafs[l].brushes[k]])
    }

    lemma AllClear()
      requires Valid() && |world.nodes| > 0 && Covered(0, 0.0, 1.0)
      ensures ClearOf()
    {
      hide Touched, Place, ProperTree, Passed;
      forall t | 0.0 <= t <= 1.0 && t < fraction
        ensures ProperTree(world.nodes, |world.leafs|, world.rank)
        ensures PassedAll(Touched(world.nodes, |world.leafs|, world.rank, sweep, isPoint, 0, Place(sweep, t)))
      {
        CoveredAt(world.nodes, |world.leafs|, world.rank, sweep, isPoint, 0, 0.0, 1.0, fraction, visited, t);
      }
    }

    /** The same for the points of the box itself: before the trace ends, each brush in each leaf in which a
        point of the box lies has been passed. */
    ghost predicate PointsClear(start: Vec, end: Vec, mins: Vec, maxs: Vec)
      reads this
    {
      && ProperTree(world.nodes, |world.leafs|, world.rank) && |world.nodes| > 0
      && forall t, v, l | 0.0 <= t <= 1.0 && t < fraction && InBox(v, mins, maxs)
           && LiesIn(world.nodes, |world.leafs|, world.rank, 0, Plus(Between(start, end, t), v), l) :: PassedAll({l})
    }

    /** The box is made symmetric around its center. */
    lemma PointsAreClear(start: Vec, end: Vec, mins: Vec, maxs: Vec, offset: Vec)
      requires ClearOf() && Sized(world.nodes, mins, maxs) && (isPoint ==> sweep.maxs == Vec(0.0, 0.0, 0.0))
      requires sweep.start == Plus(start, offset) && sweep.end == Plus(end, offset)
      requires sweep.mins == Vec(-sweep.maxs.x, -sweep.maxs.y, -sweep.maxs.z)
      requires Plus(sweep.mins, offset) == mins && Plus(sweep.maxs, offset) == maxs
      ensures PointsClear(start, end, mins, maxs)
    {
      hide Touched, LiesIn, Mix;
      var nodes, leafs, rank := world.nodes, |world.leafs|, world.rank;
      forall t, v, l | 0.0 <= t <= 1.0 && t < fraction && InBox(v, mins, maxs)
        && LiesIn(nodes, leafs, rank, 0, Plus(Between(start, end, t), v), l)
        ensures PassedAll({l})
      {
        var w := Vec(v.x - offset.x, v.y - offset.y, v.z - offset.z);
        PlaceIsMoved(start, end, offset, t);
        assert Plus(Place(sweep, t), w) == Plus(Between(start, end, t), v);
        PointIsTouched(nodes, leafs, rank, sweep, isPoint, 0, Place(sweep, t), w, l);
      }
    }

    /** A brush that holds the box and is in a leaf that the box touches at the start has been found. */
    ghost predicate StartFound()
      reads this
    {
      && ProperTree(world.nodes, |world.leafs|, world.rank) && |world.nodes| > 0
      && forall l, k | 0 <= l < |world.leafs| && 0 <= k < |world.leafs[l].brushes|
           && l in Touched(world.nodes, |world.leafs|, world.rank, sweep, isPoint, 0, sweep.start) ::
           && world.leafs[l].brushes[k] < |world.brushes|
           && (Holds(world.brushes[world.leafs[l].brushes[k]], false) ==> startsolid)
    }

    lemma StartIsFound()
      requires Valid() && |world.nodes| > 0 && fraction > 0.0 && Covered(0, 0.0, 1.0)
      ensures StartFound()
    {
      hide Touched, Place, ProperTree, Holds, Right;
      SweepEnds(sweep);
      CoveredAt(world.nodes, |world.leafs|, world.rank, sweep, isPoint, 0, 0.0, 1.0, fraction, visited, 0.0);
      forall l, k | 0 <= l < |world.leafs| && 0 <= k < |world.leafs[l].brushes|
        && l in Touched(world.nodes, |world.leafs|, world.rank, sweep, isPoint, 0, sweep.start)
        ensures Holds(world.brushes[world.leafs[l].brushes[k]], false) ==> startsolid
      {
        var i := world.leafs[l].brushes[k];
        assert world.checked[..][i] == world.checkcount;
      }
    }

    /** The flags are only set for a brush that holds the box. */
    lemma HeldByBrush()
      requires Valid()
      ensures startsolid ==> exists b | b in world.brushes :: Holds(b, false)
      ensures allsolid ==> startsolid && fraction == 0.0 && exists b | b in world.brushes :: Holds(b, true)
    {
      hide Holds, Seen;
      if startsolid {
        var i :| 0 <= i < |world.brushes| && Holds(world.brushes[i], false);
      }
      if allsolid {
        var i :| 0 <= i < |world.brushes| && world.checked[i] == world.checkcount && Holds(world.brushes[i], true);
        StaysIsStarts(world.brushes[i]);
        assert world.checked[..][i] == world.checkcount;
      }
    }

    lemma StaysIsStarts(b: Brush)
      requires Holds(b, true)
      ensures Holds(b, false)
    {
    }

    /** A brush that matches and contains a point of the box at the start is found if it is in the point's leaf. */
    ghost predicate PointsFound(start: Vec, mins: Vec, maxs: Vec)
      reads this
    {
      && ProperTree(world.nodes, |world.leafs|, world.rank) && |world.nodes| > 0
      && forall v, l, k | InBox(v, mins, maxs) && 0 <= l < |world.leafs| && 0 <= k < |world.leafs[l].brushes|
           && LiesIn(world.nodes, |world.leafs|, world.rank, 0, Plus(start, v), l) ::
           && world.leafs[l].brushes[k] < |world.brushes|
           && var b := world.brushes[world.leafs[l].brushes[k]];
           b.contents * contents != {} && Contains(b, Plus(start, v)) ==> startsolid
    }

    lemma PointsAreFound(start: Vec, mins: Vec, maxs: Vec, offset: Vec)
      requires StartFound() && Sized(world.nodes, mins, maxs) && (isPoint ==> sweep.maxs == Vec(0.0, 0.0, 0.0))
      requires sweep.start == Plus(start, offset)
      requires sweep.mins == Vec(-sweep.maxs.x, -sweep.maxs.y, -sweep.maxs.z)
      requires Plus(sweep.mins, offset) == mins && Plus(sweep.maxs, offset) == maxs
      requires forall i | 0 <= i < |world.brushes| :: ProperBrush(world.brushes[i])
      ensures PointsFound(start, mins, maxs)
    {
      hide Touched, LiesIn, ProperTree, Contains, StartsOutside, ProperBrush;
      var nodes, leafs, rank := world.nodes, |world.leafs|, world.rank;
      forall v, l, k | InBox(v, mins, maxs) && 0 <= l < leafs && 0 <= k < |world.leafs[l].brushes|
        && LiesIn(nodes, leafs, rank, 0, Plus(start, v), l)
        ensures
          && world.leafs[l].brushes[k] < |world.brushes|
          && var b := world.brushes[world.leafs[l].brushes[k]];
          b.contents * contents != {} && Contains(b, Plus(start, v)) ==> startsolid
      {
        var w := Vec(v.x - offset.x, v.y - offset.y, v.z - offset.z);
        assert Plus(sweep.start, w) == Plus(start, v);
        PointIsTouched(nodes, leafs, rank, sweep, isPoint, 0, sweep.start, w, l);
        var b := world.brushes[world.leafs[l].brushes[k]];
        if Contains(b, Plus(start, v)) { ContainsIsInside(sweep, b, w); }
      }
    }

    /** Where the trace ends, between the ends that were given */
    method EndAt(start: Vec, end: Vec)
      requires Valid() && Covered(0, 0.0, 1.0)
      modifies this`endpos
      ensures Valid() && Covered(0, 0.0, 1.0) && endpos == Between(start, end, fraction)
    {
      hide Covers, Between;
      BetweenAtEnds(start, end);
      if fraction == 1.0 {
        endpos := end;
      } else {
        endpos := Between(start, end, fraction);
      }
    }

    lemma NothingLeft(num: int, t1: real, t2: real)
      requires world.Proper() && -|world.leafs| <= num < |world.nodes| && fraction <= t1
      ensures Covered(num, t1, t2)
    {
      hide Touched, Place;
    }

    lemma LeafIsCovered(num: int, t1: real, t2: real)
      requires world.Proper() && -|world.leafs| <= num < 0 && -1 - num in visited
      ensures Covered(num, t1, t2)
    {
      hide Place;
    }
  }

  lemma ChildrenAreBelow(nodes: seq<Node>, leafs: int, rank: seq<nat>, num: int)
    requires ProperTree(nodes, leafs, rank) && 0 <= num < |nodes|
    ensures -leafs <= nodes[num].front < |nodes| && -leafs <= nodes[num].back < |nodes|
    ensures RankOf(nodes[num].front, rank) < RankOf(num, rank) && RankOf(nodes[num].back, rank) < RankOf(num, rank)
  {
  }

  /** CM_Trace through the world, for a box that moves. Wherever the box is before the trace ends,
      each solid brush in each leaf that it touches there is clear of it up to the end, unless the
      box starts in the brush. */
  method Trace(world: World, start: Vec, end: Vec, mins: Vec, maxs: Vec, brushmask: set<int>) returns (w: Work)
    requires world.Proper() && mins.x <= maxs.x && mins.y <= maxs.y && mins.z <= maxs.z
    requires start != end && |world.nodes| > 0
    requires forall i | 0 <= i < |world.brushes| :: world.checked[i] <= world.checkcount
    modifies world, world.checked
    ensures fresh(w) && w.world == world && w.contents == brushmask && 0.0 <= w.fraction <= 1.0
    ensures w.ClearOf()
    ensures Sized(world.nodes, mins, maxs) ==> w.PointsClear(start, end, mins, maxs)
    ensures w.Solid() && (w.fraction > 0.0 ==> w.StartFound())
    ensures w.fraction > 0.0 && Sized(world.nodes, mins, maxs) ==> w.PointsFound(start, mins, maxs)
    ensures w.startsolid ==> exists b | b in world.brushes :: w.Holds(b, false)
    ensures w.allsolid ==> w.startsolid && w.fraction == 0.0 && exists b | b in world.brushes :: w.Holds(b, true)
    ensures w.endpos == Between(start, end, w.fraction)
    ensures w.plane.Some? ==> InFrontTo(w.sweep, w.plane.value, w.fraction)
    ensures w.fraction < 1.0 ==> w.Ended()
    ensures forall i | 0 <= i < |world.brushes| :: world.checked[i] <= world.checkcount
  {
    hide Touched, Place, Covers, Sized, Work.PointsClear, Work.PointsFound, Work.StartFound, Work.ClearOf, Work.Holds;
    world.checkcount := world.checkcount + 1;
    w := new Work(world, start, end, mins, maxs, brushmask);
    SweepEnds(w.sweep);
    w.TraceThroughTree(0, 0.0, 1.0, w.sweep.start, w.sweep.end);
    w.EndAt(start, end);
    w.AllClear();
    w.HeldByBrush();
    if w.fraction > 0.0 { w.StartIsFound(); }
    if Sized(world.nodes, mins, maxs) {
      ghost var offset := Vec((mins.x + maxs.x) * 0.5, (mins.y + maxs.y) * 0.5, (mins.z + maxs.z) * 0.5);
      w.PointsAreClear(start, end, mins, maxs, offset);
      if w.fraction > 0.0 { w.PointsAreFound(start, mins, maxs, offset); }
    }
  }

  lemma PlaceIsMoved(start: Vec, end: Vec, offset: Vec, t: real)
    ensures Between(Plus(start, offset), Plus(end, offset), t) == Plus(Between(start, end, t), offset)
  {
    hide Mix;
    MixOfShifted(start.x, end.x, -offset.x, t);
    MixOfShifted(start.y, end.y, -offset.y, t);
    MixOfShifted(start.z, end.z, -offset.z, t);
  }

  lemma SweepEnds(s: Sweep)
    ensures Place(s, 0.0) == s.start && Place(s, 1.0) == s.end
  {
    BetweenAtEnds(s.start, s.end);
  }

  lemma DistancesAre(s: Sweep, plane: Plane)
    requires ProperPlane(plane)
    ensures 0 <= plane.signbits < 8
    ensures
      var dist := plane.dist - Dot(Corner(s.mins, s.maxs, plane.signbits), plane.normal);
      && Distance(s, plane, 0.0) == Dot(s.start, plane.normal) - dist
      && Distance(s, plane, 1.0) == Dot(s.end, plane.normal) - dist
  {
    hide Dot;
    BetweenAtEnds(s.start, s.end);
  }

  lemma InFrontBefore(s: Sweep, plane: Plane, f: real, g: real)
    requires InFrontTo(s, plane, f) && g <= f
    ensures InFrontTo(s, plane, g)
  {
  }

  lemma ClearBefore(s: Sweep, b: Brush, f: real, g: real)
    requires ClearTo(s, b, f) && g <= f
    ensures ClearTo(s, b, g)
  {
  }
}
