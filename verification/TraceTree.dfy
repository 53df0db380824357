/**
  The walk of CM_TraceThroughTree of Shared/cm_trace.c: which leaves a moving box touches, and how
  a segment is split at a node.
 */
module TraceTree {
  import opened TraceGeometry

  /** A node of the tree: a child below 0 is leaf -1 - child. */
  datatype Node = Node(plane: Plane, front: int, back: int)

  /** Every child is a leaf or a node below its parent. */
  predicate ProperTree(nodes: seq<Node>, leafs: int, rank: seq<nat>) {
    && |rank| == |nodes| && leafs >= 0
    && forall i {:trigger nodes[i]} | 0 <= i < |nodes| ::
      && ProperPlane(nodes[i].plane)
      && ChildOf(nodes[i].front, leafs, rank, rank[i]) && ChildOf(nodes[i].back, leafs, rank, rank[i])
  }

  predicate ChildOf(child: int, leafs: int, rank: seq<nat>, above: nat) {
    -leafs <= child < |rank| && (child >= 0 ==> rank[child] < above)
  }

  function RankOf(num: int, rank: seq<nat>): nat
    requires num < |rank|
  {
    if num < 0 then 0 else rank[num] + 1
  }

  /** How far the box is taken to reach from its center towards a splitting plane: its extent along
      an axis, and for other planes nothing if the box is a point, else 2048. */
  function Reach(s: Sweep, isPoint: bool, p: Plane): real {
    if p.kind < 3 then (if isPoint then 0.0 else At(s.maxs, p.kind))
    else if isPoint then 0.0 else 2048.0
  }

  /** The distance of a point from a splitting plane */
  function FromPlane(p: Plane, q: Vec): real {
    if p.kind < 3 then At(q, p.kind) - p.dist else Dot(p.normal, q) - p.dist
  }

  /** The box with its center at q reaches the front of the plane, or misses it by EPSILON. */
  predicate ReachesFront(s: Sweep, isPoint: bool, p: Plane, q: Vec) {
    FromPlane(p, q) >= -Reach(s, isPoint, p) - EPSILON
  }

  /** The box with its center at q reaches behind the plane by EPSILON. */
  predicate ReachesBack(s: Sweep, isPoint: bool, p: Plane, q: Vec) {
    FromPlane(p, q) <= Reach(s, isPoint, p) - EPSILON
  }

  /** The leaves that the box touches with its center at q. */
  function Touched(nodes: seq<Node>, leafs: int, rank: seq<nat>, s: Sweep, isPoint: bool, num: int, q: Vec): set<int>
    requires ProperTree(nodes, leafs, rank) && -leafs <= num < |nodes|
    decreases RankOf(num, rank)
  {
    if num < 0 then {-1 - num}
    else
      var n := nodes[num];
      (if ReachesFront(s, isPoint, n.plane, q) then Touched(nodes, leafs, rank, s, isPoint, n.front, q) else {})
      + (if ReachesBack(s, isPoint, n.plane, q) then Touched(nodes, leafs, rank, s, isPoint, n.back, q) else {})
  }

  /** Where the center of the box is at time t */
  function Place(s: Sweep, t: real): Vec {
    Between(s.start, s.end, t)
  }

  /** The center's distance from a plane changes evenly. */
  lemma FromPlaneIsEven(p: Plane, a: Vec, b: Vec, t: real)
    requires ProperPlane(p)
    ensures FromPlane(p, Between(a, b, t)) == Mix(FromPlane(p, a), FromPlane(p, b), t)
  {
    hide Mix;
    DotBetween(a, b, t, p.normal);
    DotCommutes(a, p.normal);
    DotCommutes(b, p.normal);
    DotCommutes(Between(a, b, t), p.normal);
    MixOfShifted(if p.kind < 3 then At(a, p.kind) else Dot(p.normal, a),
                 if p.kind < 3 then At(b, p.kind) else Dot(p.normal, b), p.dist, t);
  }

  lemma DotCommutes(a: Vec, b: Vec)
    ensures Dot(a, b) == Dot(b, a)
  {
  }

  /** A place between two places of the sweep */
  lemma PlaceBetween(s: Sweep, t1: real, t2: real, f: real)
    ensures Between(Place(s, t1), Place(s, t2), f) == Place(s, Mix(t1, t2, f))
  {
    hide Mix;
    MixOfMixes(s.start.x, s.end.x, t1, t2, f);
    MixOfMixes(s.start.y, s.end.y, t1, t2, f);
    MixOfMixes(s.start.z, s.end.z, t1, t2, f);
  }

  /** How a node splits a segment: the first `near` of it is for one child, the part from `far` on for
      the other; frontFirst tells which is first. */
  datatype Split = Split(frontFirst: bool, near: real, far: real)

  function Clamp(f: real): (r: real)
    ensures 0.0 <= r <= 1.0
  {
    if f < 0.0 then 0.0 else if f > 1.0 then 1.0 else f
  }

  function SplitOf(d1: real, d2: real, reach: real): Split {
    if d1 < d2 then
      Split(false, Clamp((d1 - reach + EPSILON) / (d1 - d2)), Clamp((d1 + reach + EPSILON) / (d1 - d2)))
    else if d1 > d2 then
      Split(true, Clamp((d1 + reach + EPSILON) / (d1 - d2)), Clamp((d1 - reach - EPSILON) / (d1 - d2)))
    else Split(true, 1.0, 0.0)
  }

  /** Where the box reaches a side of the plane, the segment for that side's child is walked. */
  lemma SplitCovers(d1: real, d2: real, reach: real, u: real)
    requires 0.0 <= u <= 1.0
    ensures
      var split, d := SplitOf(d1, d2, reach), Mix(d1, d2, u);
      && (d >= -reach - EPSILON ==> if split.frontFirst then u <= split.near else u >= split.far)
      && (d <= reach - EPSILON ==> if split.frontFirst then u >= split.far else u <= split.near)
  {
    hide Mix;
    if d1 < d2 {
      RisesAt(d1, d2, reach - EPSILON, u, (d1 - reach + EPSILON) / (d1 - d2));
      RisesAt(d1, d2, -reach - EPSILON, u, (d1 + reach + EPSILON) / (d1 - d2));
    } else if d1 > d2 {
      FallsAt(d1, d2, -reach - EPSILON, u, (d1 + reach + EPSILON) / (d1 - d2));
      FallsAt(d1, d2, reach + EPSILON, u, (d1 - reach - EPSILON) / (d1 - d2));
    }
  }

  lemma RisesAt(d1: real, d2: real, c: real, u: real, f: real)
    requires d1 < d2 && 0.0 <= u <= 1.0 && f == (d1 - c) / (d1 - d2)
    ensures Mix(d1, d2, u) >= c <==> u >= f
    ensures u >= f ==> u >= Clamp(f)
    ensures Mix(d1, d2, u) <= c ==> u <= Clamp(f)
  {
    Quotient(d1 - c, d1 - d2);
    Rises(d1, d2, f, c, u);
  }

  lemma FallsAt(d1: real, d2: real, c: real, u: real, f: real)
    requires d1 > d2 && 0.0 <= u <= 1.0 && f == (d1 - c) / (d1 - d2)
    ensures Mix(d1, d2, u) >= c ==> u <= Clamp(f)
    ensures Mix(d1, d2, u) <= c ==> u >= Clamp(f)
  {
    Quotient(d1 - c, d1 - d2);
    Falls(d1, d2, f, c, u);
  }

  /** How far along the segment from t1 to t2 a time is */
  lemma PartOf(t1: real, t2: real, t: real) returns (u: real)
    requires t1 <= t <= t2
    ensures 0.0 <= u <= 1.0 && t == Mix(t1, t2, u)
  {
    if t1 == t2 {
      u := 0.0;
    } else {
      u := (t - t1) / (t2 - t1);
      Quotient(t - t1, t2 - t1);
      SignOfProduct(u, t2 - t1, t - t1);
      SignOfProduct(1.0 - u, t2 - t1, t2 - t);
    }
  }

  /** The same for the times of a sweep: at a time at which the box reaches a side, the walk of that
      side's child covers the time. */
  lemma SplitCoversTime(s: Sweep, isPoint: bool, p: Plane, t1: real, t2: real, t: real)
    requires ProperPlane(p) && t1 <= t <= t2
    ensures
      var split := SplitOf(FromPlane(p, Place(s, t1)), FromPlane(p, Place(s, t2)), Reach(s, isPoint, p));
      var near, far := Mix(t1, t2, split.near), Mix(t1, t2, split.far);
      && (ReachesFront(s, isPoint, p, Place(s, t)) ==> if split.frontFirst then t <= near else t >= far)
      && (ReachesBack(s, isPoint, p, Place(s, t)) ==> if split.frontFirst then t >= far else t <= near)
  {
    hide Mix, FromPlane, Place, Between, Reach, SplitOf;
    var d1, d2, reach := FromPlane(p, Place(s, t1)), FromPlane(p, Place(s, t2)), Reach(s, isPoint, p);
    var split := SplitOf(d1, d2, reach);
    var u := PartOf(t1, t2, t);
    PlaceBetween(s, t1, t2, u);
    FromPlaneIsEven(p, Place(s, t1), Place(s, t2), u);
    SplitCovers(d1, d2, reach, u);
    if u <= split.near { MixInOrder(t1, t2, u, split.near); }
    if u >= split.far { MixInOrder(t1, t2, split.far, u); }
  }

  /** If both ends of a segment are far on one side, the box does not reach the other side. */
  lemma FarAway(s: Sweep, isPoint: bool, p: Plane, t1: real, t2: real, t: real)
    requires ProperPlane(p) && t1 <= t <= t2
    ensures
      var d1, d2, reach := FromPlane(p, Place(s, t1)), FromPlane(p, Place(s, t2)), Reach(s, isPoint, p);
      && (d1 >= reach + 1.0 && d2 >= reach + 1.0 ==> !ReachesBack(s, isPoint, p, Place(s, t)))
      && (d1 < -reach - 1.0 && d2 < -reach - 1.0 ==> !ReachesFront(s, isPoint, p, Place(s, t)))
  {
    hide Mix, FromPlane, Place, Between, Reach;
    var u := PartOf(t1, t2, t);
    PlaceBetween(s, t1, t2, u);
    FromPlaneIsEven(p, Place(s, t1), Place(s, t2), u);
    MixIsBetween(FromPlane(p, Place(s, t1)), FromPlane(p, Place(s, t2)), u);
  }

  /** The box touches some leaf wherever it is. */
  lemma {:induction false} TouchesSomething(nodes: seq<Node>, leafs: int, rank: seq<nat>, s: Sweep, isPoint: bool,
          num: int, q: Vec)
    requires ProperTree(nodes, leafs, rank) && -leafs <= num < |nodes|
    requires s.maxs.x >= 0.0 && s.maxs.y >= 0.0 && s.maxs.z >= 0.0
    ensures Touched(nodes, leafs, rank, s, isPoint, num, q) != {}
    decreases RankOf(num, rank)
  {
    if num < 0 {
      assert -1 - num in Touched(nodes, leafs, rank, s, isPoint, num, q);
    } else {
      var n := nodes[num];
      var child := if ReachesFront(s, isPoint, n.plane, q) then n.front else n.back;
      TouchesSomething(nodes, leafs, rank, s, isPoint, child, q);
      assert Touched(nodes, leafs, rank, s, isPoint, child, q) <= Touched(nodes, leafs, rank, s, isPoint, num, q);
    }
  }

  /** A box that has a point in front of a plane reaches its front, and one that has a point more
      than EPSILON behind it reaches its back, as long as 2048 is more than its size. */
  lemma ReachIsEnough(s: Sweep, isPoint: bool, p: Plane, q: Vec, v: Vec)
    requires ProperPlane(p) && InBox(v, s.mins, s.maxs) && s.mins == Vec(-s.maxs.x, -s.maxs.y, -s.maxs.z)
    requires isPoint ==> s.maxs == Vec(0.0, 0.0, 0.0)
    requires p.kind == 3 ==> -2048.0 <= Dot(v, p.normal) <= 2048.0
    ensures Dot(Plus(q, v), p.normal) - p.dist >= -EPSILON ==> ReachesFront(s, isPoint, p, q)
    ensures Dot(Plus(q, v), p.normal) - p.dist <= -EPSILON ==> ReachesBack(s, isPoint, p, q)
  {
    DotOfSum(q, v, p.normal);
    DotCommutes(q, p.normal);
  }

  /** A point is in a leaf below node num if on its way it turns front where it is not behind the plane by
      EPSILON, and back where it is. */
  predicate LiesIn(nodes: seq<Node>, leafs: int, rank: seq<nat>, num: int, p: Vec, leaf: int)
    requires ProperTree(nodes, leafs, rank) && -leafs <= num < |nodes|
    decreases RankOf(num, rank)
  {
    if num < 0 then leaf == -1 - num
    else
      var n := nodes[num];
      var d := Dot(p, n.plane.normal) - n.plane.dist;
      || (d >= -EPSILON && LiesIn(nodes, leafs, rank, n.front, p, leaf))
      || (d <= -EPSILON && LiesIn(nodes, leafs, rank, n.back, p, leaf))
  }

  /** Normals are no longer than one, and the box is not larger than the 2048 that are assumed for it. */
  predicate Sized(nodes: seq<Node>, mins: Vec, maxs: Vec) {
    && (maxs.x - mins.x) + (maxs.y - mins.y) + (maxs.z - mins.z) <= 4096.0
    && forall i | 0 <= i < |nodes| ::
         var n := nodes[i].plane.normal;
         -1.0 <= n.x <= 1.0 && -1.0 <= n.y <= 1.0 && -1.0 <= n.z <= 1.0
  }

  lemma ProductIsBetween(a: real, b: real, c: real)
    requires -c <= a <= c && -1.0 <= b <= 1.0
    ensures -c <= a * b <= c
  {
    ProductIsPositive(c - a, 1.0 + b);
    ProductIsPositive(c + a, 1.0 - b);
    ProductIsPositive(c - a, 1.0 - b);
    ProductIsPositive(c + a, 1.0 + b);
    assert (c - a) * (1.0 + b) + (c + a) * (1.0 - b) == 2.0 * c - 2.0 * (a * b);
    assert (c - a) * (1.0 - b) + (c + a) * (1.0 + b) == 2.0 * c + 2.0 * (a * b);
  }

  lemma BoxIsSmall(s: Sweep, nodes: seq<Node>, i: nat, v: Vec)
    requires Sized(nodes, s.mins, s.maxs) && i < |nodes| && InBox(v, s.mins, s.maxs)
    requires s.mins == Vec(-s.maxs.x, -s.maxs.y, -s.maxs.z)
    ensures -2048.0 <= Dot(v, nodes[i].plane.normal) <= 2048.0
  {
    var n := nodes[i].plane.normal;
    ProductIsBetween(v.x, n.x, s.maxs.x);
    ProductIsBetween(v.y, n.y, s.maxs.y);
    ProductIsBetween(v.z, n.z, s.maxs.z);
  }

  /** A leaf in which a point of the box lies is touched. */
  lemma {:induction false} PointIsTouched(nodes: seq<Node>, leafs: int, rank: seq<nat>, s: Sweep, isPoint: bool,
          num: int, q: Vec, v: Vec, leaf: int)
    requires ProperTree(nodes, leafs, rank) && -leafs <= num < |nodes| && Sized(nodes, s.mins, s.maxs)
    requires InBox(v, s.mins, s.maxs) && s.mins == Vec(-s.maxs.x, -s.maxs.y, -s.maxs.z)
    requires isPoint ==> s.maxs == Vec(0.0, 0.0, 0.0)
    requires LiesIn(nodes, leafs, rank, num, Plus(q, v), leaf)
    ensures leaf in Touched(nodes, leafs, rank, s, isPoint, num, q)
    decreases RankOf(num, rank)
  {
    hide ReachesFront, ReachesBack, Dot, InBox, Sized;
    if num >= 0 {
      var n := nodes[num];
      var p := Plus(q, v);
      BoxIsSmall(s, nodes, num, v);
      ReachIsEnough(s, isPoint, n.plane, q, v);
      if Dot(p, n.plane.normal) - n.plane.dist >= -EPSILON && LiesIn(nodes, leafs, rank, n.front, p, leaf) {
        PointIsTouched(nodes, leafs, rank, s, isPoint, n.front, q, v, leaf);
      } else {
        PointIsTouched(nodes, leafs, rank, s, isPoint, n.back, q, v, leaf);
      }
    }
  }
}
