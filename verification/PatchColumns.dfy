/**
  Subdividing the columns of a grid of control points (Shared/cm_patch.c): what the in-place loops
  make of a list of columns.
 */
module PatchColumns {
  import opened BitStream
  import opened TraceGeometry
  import opened PatchCurve

  const MAX_GRID_SIZE := 129

  type Column = seq<Vec>

  function MiddleColumn(a: Column, b: Column): (r: Column)
    requires |a| == |b|
    ensures |r| == |a|
  {
    seq(|a|, j requires 0 <= j < |a| => Middle(a[j], b[j]))
  }

  function CurveColumn(a: Column, b: Column, c: Column, t: real): (r: Column)
    requires |a| == |b| == |c|
    ensures |r| == |a|
  {
    seq(|a|, j requires 0 <= j < |a| => Curve(a[j], b[j], c[j], t))
  }

  predicate Same(a: Column, b: Column, c: Column) {
    |a| == |b| == |c|
  }

  /** Some row of three columns is too far from its chord. */
  predicate Bent(a: Column, b: Column, c: Column)
    requires Same(a, b, c)
  {
    exists j | 0 <= j < |a| :: NeedsSubdivision(a[j], b[j], c[j])
  }

  function MostBend(a: Column, b: Column, c: Column): (r: real)
    requires Same(a, b, c)
    ensures r >= 0.0
  {
    if a == [] then 0.0
    else
      var n := |a| - 1;
      var most, last := MostBend(a[..n], b[..n], c[..n]), Bend(a[n], b[n], c[n]);
      BendIsPositive(a[n], b[n], c[n]);
      if last > most then last else most
  }

  lemma BendIsPositive(a: Vec, b: Vec, c: Vec)
    ensures Bend(a, b, c) >= 0.0
  {
    var d := Minus(Middle(Middle(a, b), Middle(b, c)), Middle(a, c));
    SquareIsPositive(d.x);
    SquareIsPositive(d.y);
    SquareIsPositive(d.z);
  }

  lemma {:induction false} MostBendIs(a: Column, b: Column, c: Column)
    requires Same(a, b, c)
    ensures Bent(a, b, c) <==> MostBend(a, b, c) >= 16.0 * 16.0
    ensures forall j | 0 <= j < |a| :: Bend(a[j], b[j], c[j]) <= MostBend(a, b, c)
  {
    hide Bend;
    if a != [] {
      var n := |a| - 1;
      MostBendIs(a[..n], b[..n], c[..n]);
      if Bent(a[..n], b[..n], c[..n]) {
        var j :| 0 <= j < n && NeedsSubdivision(a[..n][j], b[..n][j], c[..n][j]);
        assert NeedsSubdivision(a[j], b[j], c[j]);
      }
      forall j | 0 <= j < |a| ensures Bend(a[j], b[j], c[j]) <= MostBend(a, b, c) {
        if j < n { assert Bend(a[..n][j], b[..n][j], c[..n][j]) <= MostBend(a[..n], b[..n], c[..n]); }
      }
    }
  }

  lemma {:induction false} HalvesBendTheSame(a: Column, b: Column, c: Column)
    requires Same(a, b, c)
    ensures
      var m1, m3 := MiddleColumn(a, b), MiddleColumn(b, c);
      var mid := MiddleColumn(m1, m3);
      MostBend(a, m1, mid) == MostBend(mid, m3, c) == MostBend(a, b, c) / 16.0
  {
    hide Bend;
    if a != [] {
      var n := |a| - 1;
      var m1, m3 := MiddleColumn(a, b), MiddleColumn(b, c);
      var mid := MiddleColumn(m1, m3);
      HalvesBendTheSame(a[..n], b[..n], c[..n]);
      assert m1[..n] == MiddleColumn(a[..n], b[..n]) && m3[..n] == MiddleColumn(b[..n], c[..n]);
      assert mid[..n] == MiddleColumn(m1[..n], m3[..n]);
      HalvesBendLess(a[n], b[n], c[n]);
    }
  }

  /** How often a curve that bends by d is halved */
  function Depth(d: real): nat
    decreases d.Floor
  {
    if d < SUBDIVIDE_DISTANCE * SUBDIVIDE_DISTANCE then 0 else Depth(d / 16.0) + 1
  }

  function DepthOf(a: Column, b: Column, c: Column): nat
    requires Same(a, b, c)
  {
    Depth(MostBend(a, b, c))
  }

  /** Halving ends: it takes one level less for the halves. */
  lemma HalvesAreShallower(a: Column, b: Column, c: Column)
    requires Same(a, b, c)
    ensures Bent(a, b, c) <==> DepthOf(a, b, c) > 0
    ensures
      var m1, m3 := MiddleColumn(a, b), MiddleColumn(b, c);
      var mid := MiddleColumn(m1, m3);
      Bent(a, b, c) ==> DepthOf(a, m1, mid) == DepthOf(mid, m3, c) == DepthOf(a, b, c) - 1
  {
    MostBendIs(a, b, c);
    HalvesBendTheSame(a, b, c);
  }

  /** The columns between a and c once the curve has been subdivided far enough */
  ghost function Refined(a: Column, b: Column, c: Column): seq<Column>
    requires Same(a, b, c)
    decreases DepthOf(a, b, c)
  {
    HalvesAreShallower(a, b, c);
    if !Bent(a, b, c) then []
    else
      var m1, m3 := MiddleColumn(a, b), MiddleColumn(b, c);
      var mid := MiddleColumn(m1, m3);
      Refined(a, m1, mid) + [mid] + Refined(mid, m3, c)
  }

  function Part(k: nat, n: nat): real {
    k as real / Pow2(n) as real
  }

  /** The columns lie on the curve, at 2^n - 1 evenly spaced parameters. */
  lemma {:induction false} RefinedIsOnCurve(a: Column, b: Column, c: Column)
    requires Same(a, b, c)
    ensures
      var n := DepthOf(a, b, c);
      && |Refined(a, b, c)| == Pow2(n) - 1
      && forall k | 0 <= k < |Refined(a, b, c)| :: Refined(a, b, c)[k] == CurveColumn(a, b, c, Part(k + 1, n))
    decreases DepthOf(a, b, c)
  {
    hide DepthOf, Bent, MiddleColumn, CurveColumn, Part;
    HalvesAreShallower(a, b, c);
    var n := DepthOf(a, b, c);
    if n > 0 {
      var m1, m3 := MiddleColumn(a, b), MiddleColumn(b, c);
      var mid := MiddleColumn(m1, m3);
      RefinedIsOnCurve(a, m1, mid);
      RefinedIsOnCurve(mid, m3, c);
      var half := Pow2(n - 1);
      forall k | 0 <= k < Pow2(n) - 1 ensures Refined(a, b, c)[k] == CurveColumn(a, b, c, Part(k + 1, n)) {
        PartHalves(if k + 1 <= half then k + 1 else k + 1 - half, n - 1);
        ColumnHalves(a, b, c, Part(if k + 1 <= half then k + 1 else k + 1 - half, n - 1));
        PartAtEnds(n - 1);
        ColumnAtEnds(a, m1, mid);
      }
    }
  }

  lemma PartHalves(k: nat, n: nat)
    ensures 0.5 * Part(k, n) == Part(k, n + 1) && 0.5 + 0.5 * Part(k, n) == Part(k + Pow2(n), n + 1)
  {
    var x := Pow2(n);
    assert Pow2(n + 1) == 2 * x;
    hide Pow2;
    var p, q := x as real, k as real;
    assert (2 * x) as real == 2.0 * p && (k + x) as real == q + p;
    HalfQuotient(q, p);
    HalfQuotient(q + p, p);
    QuotientOfSum(q, p);
  }

  lemma HalfQuotient(q: real, p: real)
    requires p > 0.0
    ensures q / (2.0 * p) == 0.5 * (q / p)
  {
  }

  lemma QuotientOfSum(q: real, p: real)
    requires p > 0.0
    ensures (q + p) / p == q / p + 1.0
  {
    var x, y := (q + p) / p, q / p;
    TraceGeometry.Quotient(q + p, p);
    TraceGeometry.Quotient(q, p);
    assert (x - y - 1.0) * p == x * p - y * p - p;
    Cancel(x - y - 1.0, p);
  }

  lemma Cancel(z: real, p: real)
    requires p > 0.0 && z * p == 0.0
    ensures z == 0.0
  {
  }

  lemma QuotientAtEnds(p: real)
    requires p > 0.0
    ensures 0.0 / p == 0.0 && p / p == 1.0
  {
  }

  lemma PartAtEnds(n: nat)
    ensures Part(0, n) == 0.0 && Part(Pow2(n), n) == 1.0
  {
    hide Pow2;
    QuotientAtEnds(Pow2(n) as real);
  }

  lemma ColumnHalves(a: Column, b: Column, c: Column, s: real)
    requires Same(a, b, c)
    ensures
      var m1, m3 := MiddleColumn(a, b), MiddleColumn(b, c);
      var mid := MiddleColumn(m1, m3);
      && CurveColumn(a, m1, mid, s) == CurveColumn(a, b, c, 0.5 * s)
      && CurveColumn(mid, m3, c, s) == CurveColumn(a, b, c, 0.5 + 0.5 * s)
  {
    hide Curve, Middle;
    forall j | 0 <= j < |a| {
      CurveHalves(a[j], b[j], c[j], s);
    }
  }

  lemma ColumnAtEnds(a: Column, b: Column, c: Column)
    requires Same(a, b, c)
    ensures CurveColumn(a, b, c, 0.0) == a && CurveColumn(a, b, c, 1.0) == c
  {
    hide Curve;
    forall j | 0 <= j < |a| {
      CurveAtEnds(a[j], b[j], c[j]);
    }
  }

  /** The columns from a to c once the curve has been subdivided */
  ghost function Whole(a: Column, b: Column, c: Column): (r: seq<Column>)
    requires Same(a, b, c)
    ensures |r| >= 2
  {
    [a] + Refined(a, b, c) + [c]
  }

  /** At parameter t the curves are near the chord from column p to column q, at its parameter s. */
  predicate Near(a: Column, b: Column, c: Column, t: real, p: Column, q: Column, s: real) {
    && |a| == |b| == |c| == |p| == |q| && 0.0 <= s <= 1.0
    && forall j | 0 <= j < |a| ::
         Apart2(Curve(a[j], b[j], c[j], t), Between(p[j], q[j], s)) < 16.0 * 16.0
  }

  lemma FlatIsNear(a: Column, b: Column, c: Column, t: real)
    requires Same(a, b, c) && !Bent(a, b, c) && 0.0 <= t <= 1.0
    ensures Near(a, b, c, t, a, c, t)
  {
    hide Curve, Between, Bend, Apart2;
    forall j | 0 <= j < |a|
      ensures Apart2(Curve(a[j], b[j], c[j], t), Between(a[j], c[j], t)) < 16.0 * 16.0
    {
      ChordIsClose(a[j], b[j], c[j], t);
      assert !NeedsSubdivision(a[j], b[j], c[j]);
    }
  }

  lemma HalfIsNear(a: Column, b: Column, c: Column, t: real, p: Column, q: Column, s: real)
    requires Same(a, b, c)
    ensures
      var m1, m3 := MiddleColumn(a, b), MiddleColumn(b, c);
      var mid := MiddleColumn(m1, m3);
      && (Near(a, m1, mid, t, p, q, s) ==> Near(a, b, c, 0.5 * t, p, q, s))
      && (Near(mid, m3, c, t, p, q, s) ==> Near(a, b, c, 0.5 + 0.5 * t, p, q, s))
  {
    hide Curve, Between, Apart2, Middle;
    forall j | 0 <= j < |a| {
      CurveHalves(a[j], b[j], c[j], t);
    }
  }

  /** Everywhere the curve is less than 16 units from the chord between some two neighbouring
      columns. */
  lemma {:induction false} RefinedIsNear(a: Column, b: Column, c: Column, t: real) returns (k: nat, s: real)
    requires Same(a, b, c) && 0.0 <= t <= 1.0
    ensures k + 1 < |Whole(a, b, c)| && Near(a, b, c, t, Whole(a, b, c)[k], Whole(a, b, c)[k + 1], s)
    decreases DepthOf(a, b, c)
  {
    hide DepthOf, Bent, MiddleColumn, Near;
    HalvesAreShallower(a, b, c);
    if !Bent(a, b, c) {
      FlatIsNear(a, b, c, t);
      k, s := 0, t;
    } else {
      var m1, m3 := MiddleColumn(a, b), MiddleColumn(b, c);
      var mid := MiddleColumn(m1, m3);
      var whole, first, second := Whole(a, b, c), Whole(a, m1, mid), Whole(mid, m3, c);
      assert whole == first + second[1..];
      if t <= 0.5 {
        k, s := RefinedIsNear(a, m1, mid, 2.0 * t);
        HalfIsNear(a, b, c, 2.0 * t, first[k], first[k + 1], s);
      } else {
        k, s := RefinedIsNear(mid, m3, c, 2.0 * t - 1.0);
        HalfIsNear(a, b, c, 2.0 * t - 1.0, second[k], second[k + 1], s);
        assert second[k] == whole[|first| - 1 + k] && second[k + 1] == whole[|first| - 1 + (k + 1)];
        k := |first| - 1 + k;
      }
    }
  }

  // ---- the whole grid ----

  /** All columns have h rows. */
  predicate Columns(cols: seq<Column>, h: nat) {
    forall i | 0 <= i < |cols| :: |cols[i]| == h
  }

  /** CM_SubdivideGridColumns: columns 0, 2, 4, ... are interpolated, those between control curves. */
  ghost function RefinedAll(cols: seq<Column>, h: nat): seq<Column>
    requires Columns(cols, h)
    decreases |cols|
  {
    if |cols| < 3 then cols
    else [cols[0]] + Refined(cols[0], cols[1], cols[2]) + RefinedAll(cols[2..], h)
  }

  /** There is room for the columns while the grid is subdivided: a curve that is halved n times takes
      up to 2^n more, and leaves 2^n - 2 more. */
  predicate Room(cols: seq<Column>, h: nat, width: int)
    requires Columns(cols, h)
    decreases |cols|
  {
    |cols| < 3 ||
    (var n := DepthOf(cols[0], cols[1], cols[2]);
     width + (if n > 0 then Pow2(n) else 0) <= MAX_GRID_SIZE && Room(cols[2..], h, width + Pow2(n) - 2))
  }

  /** The number of steps that are left */
  function Steps(cols: seq<Column>, h: nat): nat
    requires Columns(cols, h)
    decreases |cols|
  {
    if |cols| < 3 then 0 else 2 * Pow2(DepthOf(cols[0], cols[1], cols[2])) - 1 + Steps(cols[2..], h)
  }

  /** The columns after one curve has been subdivided */
  function Halved(cols: seq<Column>, h: nat): (r: seq<Column>)
    requires Columns(cols, h) && |cols| >= 3
    ensures |r| == |cols| + 2
  {
    var m1, m3 := MiddleColumn(cols[0], cols[1]), MiddleColumn(cols[1], cols[2]);
    [cols[0], m1, MiddleColumn(m1, m3), m3] + cols[2..]
  }

  /** The columns from the middle of a subdivided curve on */
  lemma HalvedParts(cols: seq<Column>, h: nat)
    requires Columns(cols, h) && |cols| >= 3
    ensures
      var m1, m3 := MiddleColumn(cols[0], cols[1]), MiddleColumn(cols[1], cols[2]);
      var r, mid := Halved(cols, h), MiddleColumn(m1, m3);
      && Columns(r, h) && r[0] == cols[0] && r[1] == m1 && r[2..] == [mid, m3] + cols[2..]
      && r[2..][0] == mid && r[2..][1] == m3 && r[2..][2] == cols[2] && r[2..][2..] == cols[2..]
  {
    hide MiddleColumn;
  }

  /** Subdividing the first curve does not change the outcome. */
  lemma HalvedIsRefined(cols: seq<Column>, h: nat)
    requires Columns(cols, h) && |cols| >= 3 && Bent(cols[0], cols[1], cols[2])
    ensures Columns(Halved(cols, h), h) && RefinedAll(Halved(cols, h), h) == RefinedAll(cols, h)
  {
    hide MiddleColumn, Bent, DepthOf, Halved;
    var a, b, c := cols[0], cols[1], cols[2];
    var m1, m3 := MiddleColumn(a, b), MiddleColumn(b, c);
    var mid := MiddleColumn(m1, m3);
    HalvedParts(cols, h);
    assert Refined(a, b, c) == Refined(a, m1, mid) + [mid] + Refined(mid, m3, c);
  }

  /** It brings the outcome closer, and there is room for it exactly if there was. */
  lemma HalvedHasRoom(cols: seq<Column>, h: nat, width: int)
    requires Columns(cols, h) && |cols| >= 3 && Bent(cols[0], cols[1], cols[2])
    ensures Columns(Halved(cols, h), h) && Steps(Halved(cols, h), h) < Steps(cols, h)
    ensures Room(cols, h, width) <==> Room(Halved(cols, h), h, width + 2) && width + 2 <= MAX_GRID_SIZE
  {
    hide MiddleColumn, Bent, DepthOf, Halved;
    HalvedParts(cols, h);
    HalvesAreShallower(cols[0], cols[1], cols[2]);
  }

  /** Dropping the control column of a flat curve does not change the outcome. */
  lemma FlatIsRefined(cols: seq<Column>, h: nat, width: int)
    requires Columns(cols, h) && |cols| >= 3 && !Bent(cols[0], cols[1], cols[2])
    ensures Columns(cols[2..], h) && RefinedAll(cols, h) == [cols[0]] + RefinedAll(cols[2..], h)
    ensures Steps(cols[2..], h) < Steps(cols, h)
    ensures Room(cols, h, width) <==> Room(cols[2..], h, width - 1) && width <= MAX_GRID_SIZE
  {
    hide Bent, DepthOf;
    HalvesAreShallower(cols[0], cols[1], cols[2]);
    assert Refined(cols[0], cols[1], cols[2]) == [];
  }

  function Most(a: int, b: int): int {
    if a > b then a else b
  }

  /** The largest width that the grid has while the loop runs from some column on */
  ghost function Peak(cols: seq<Column>, h: nat, width: int): int
    requires Columns(cols, h)
    decreases Steps(cols, h)
  {
    if |cols| < 3 then width
    else if Bent(cols[0], cols[1], cols[2]) then
      HalvedHasRoom(cols, h, width);
      Most(width, Peak(Halved(cols, h), h, width + 2))
    else
      FlatIsRefined(cols, h, width);
      Most(width, Peak(cols[2..], h, width - 1))
  }

  /** There is room exactly if the grid never grows beyond its array. */
  lemma {:induction false} RoomIsNeeded(cols: seq<Column>, h: nat, width: int)
    requires Columns(cols, h) && width <= 129
    ensures Room(cols, h, width) <==> Peak(cols, h, width) <= 129
    decreases Steps(cols, h)
  {
    hide Bent, Room, Halved, Steps;
    if |cols| >= 3 {
      if Bent(cols[0], cols[1], cols[2]) {
        HalvedHasRoom(cols, h, width);
        PeakIsAtLeast(Halved(cols, h), h, width + 2);
        if width + 2 <= MAX_GRID_SIZE { RoomIsNeeded(Halved(cols, h), h, width + 2); }
      } else {
        FlatIsRefined(cols, h, width);
        RoomIsNeeded(cols[2..], h, width - 1);
      }
    } else {
      RoomWhenShort(cols, h, width);
    }
  }

  lemma PeakIsAtLeast(cols: seq<Column>, h: nat, width: int)
    requires Columns(cols, h)
    ensures Peak(cols, h, width) >= width
  {
  }

  lemma RoomWhenShort(cols: seq<Column>, h: nat, width: int)
    requires Columns(cols, h) && |cols| < 3
    ensures Room(cols, h, width)
  {
  }

  lemma ShortIsRefined(cols: seq<Column>, h: nat)
    requires Columns(cols, h) && |cols| < 3
    ensures RefinedAll(cols, h) == cols
  {
  }

  lemma RefinedStarts(cols: seq<Column>, h: nat)
    requires Columns(cols, h) && cols != []
    ensures RefinedAll(cols, h) != [] && RefinedAll(cols, h)[0] == cols[0]
  {
  }

  /** A column lies on the curves between columns 2k and 2k + 2, at a multiple of 2^-n if those are halved n
      times. */
  predicate OnCurve(cols: seq<Column>, h: nat, k: nat, j: nat, col: Column)
    requires Columns(cols, h)
  {
    && 2 * k + 2 < |cols|
    && var n := DepthOf(cols[2 * k], cols[2 * k + 1], cols[2 * k + 2]);
    j <= Pow2(n) && col == CurveColumn(cols[2 * k], cols[2 * k + 1], cols[2 * k + 2], Part(j, n))
  }

  /** Every column of a subdivided grid lies on one of the original curves. */
  lemma {:induction false} RefinedAllIsOnCurve(cols: seq<Column>, h: nat, m: nat) returns (k: nat, j: nat)
    requires Columns(cols, h) && |cols| % 2 == 1 && |cols| >= 3 && m < |RefinedAll(cols, h)|
    ensures OnCurve(cols, h, k, j, RefinedAll(cols, h)[m])
    decreases |cols|
  {
    hide CurveColumn, Bent, DepthOf, Part;
    var a, b, c := cols[0], cols[1], cols[2];
    RefinedIsOnCurve(a, b, c);
    ColumnAtEnds(a, b, c);
    RefinedStarts(cols[2..], h);
    var n, mid := DepthOf(a, b, c), |Refined(a, b, c)|;
    PartAtEnds(n);
    if m == 0 {
      k, j := 0, 0;
    } else if m <= mid {
      k, j := 0, m;
      assert RefinedAll(cols, h)[m] == Refined(a, b, c)[m - 1];
    } else if |cols| == 3 {
      k, j := 0, Pow2(n);
    } else {
      k, j := RefinedAllIsOnCurve(cols[2..], h, m - 1 - mid);
      k := k + 1;
    }
  }

  /** Everywhere on every original curve a subdivided grid is less than 16 units away. */
  lemma {:induction false} RefinedAllIsNear(cols: seq<Column>, h: nat, k: nat, t: real) returns (m: nat, s: real)
    requires Columns(cols, h) && 2 * k + 2 < |cols| && 0.0 <= t <= 1.0
    ensures m + 1 < |RefinedAll(cols, h)|
    ensures
      var r := RefinedAll(cols, h);
      Near(cols[2 * k], cols[2 * k + 1], cols[2 * k + 2], t, r[m], r[m + 1], s)
    decreases |cols|
  {
    hide Near, Bent, DepthOf;
    var r, first := RefinedAll(cols, h), Whole(cols[0], cols[1], cols[2]);
    RefinedStarts(cols[2..], h);
    if k == 0 {
      m, s := RefinedIsNear(cols[0], cols[1], cols[2], t);
      assert r[m] == first[m] && r[m + 1] == first[m + 1];
    } else {
      var rest := RefinedAll(cols[2..], h);
      m, s := RefinedAllIsNear(cols[2..], h, k - 1, t);
      assert r[|first| - 1 + m] == rest[m] && r[|first| - 1 + (m + 1)] == rest[m + 1];
      m := |first| - 1 + m;
    }
  }
}
