/**
  cGrid_t of Shared/cm_patch.c: a grid of control points that is subdivided, thinned and transposed
  in place.
 */
module Patch {
  import opened TraceGeometry
  import opened PatchCurve
  import opened PatchColumns

  const POINT_EPSILON := 0.1

  /** CM_ComparePoints */
  predicate PointsMatch(a: Vec, b: Vec) {
    && -POINT_EPSILON <= a.x - b.x <= POINT_EPSILON
    && -POINT_EPSILON <= a.y - b.y <= POINT_EPSILON
    && -POINT_EPSILON <= a.z - b.z <= POINT_EPSILON
  }

  predicate ColumnsMatch(a: Column, b: Column) {
    |a| == |b| && forall j | 0 <= j < |a| :: PointsMatch(a[j], b[j])
  }

  /** CM_RemoveDegenerateColumns: a column that matches the one kept before it is dropped. */
  function Thinned(cols: seq<Column>): seq<Column>
    decreases |cols|
  {
    if |cols| < 2 then cols
    else if ColumnsMatch(cols[0], cols[1]) then Thinned([cols[0]] + cols[2..])
    else [cols[0]] + Thinned(cols[1..])
  }

  lemma ThinnedShort(cols: seq<Column>)
    requires |cols| < 2
    ensures Thinned(cols) == cols
  {
  }

  lemma ThinnedDrops(cols: seq<Column>)
    requires |cols| >= 2 && ColumnsMatch(cols[0], cols[1])
    ensures Thinned(cols) == Thinned([cols[0]] + cols[2..])
  {
  }

  lemma ThinnedKeeps(cols: seq<Column>)
    requires |cols| >= 2 && !ColumnsMatch(cols[0], cols[1])
    ensures Thinned(cols) == [cols[0]] + Thinned(cols[1..])
  {
  }

  /** The columns at some indexes, in order */
  predicate Picks(cols: seq<Column>, at: seq<int>, r: seq<Column>) {
    && |at| == |r| && (forall k | 0 <= k < |at| :: 0 <= at[k] < |cols| && r[k] == cols[at[k]])
    && (forall k, m | 0 <= k < m < |at| :: at[k] < at[m])
  }

  /** No two neighbours match. */
  ghost predicate NoneMatch(cols: seq<Column>) {
    forall k, m | 0 <= k < m < |cols| && m == k + 1 :: !ColumnsMatch(cols[k], cols[m])
  }

  lemma PicksAll(cols: seq<Column>) returns (at: seq<int>)
    ensures Picks(cols, at, cols) && |at| == |cols| && (|cols| > 0 ==> at[0] == 0)
  {
    at := seq(|cols|, i => i);
  }

  /** Picking from the columns without the second */
  lemma PicksWithoutSecond(cols: seq<Column>, before: seq<int>, r: seq<Column>) returns (at: seq<int>)
    requires |cols| >= 2 && Picks([cols[0]] + cols[2..], before, r) && |before| > 0 && before[0] == 0
    ensures Picks(cols, at, r) && |at| > 0 && at[0] == 0
  {
    at := seq(|before|, k requires 0 <= k < |before| => if before[k] == 0 then 0 else before[k] + 1);
  }

  /** Picking the first and some of the others */
  lemma PicksWithFirst(cols: seq<Column>, before: seq<int>, r: seq<Column>) returns (at: seq<int>)
    requires |cols| >= 1 && Picks(cols[1..], before, r)
    ensures Picks(cols, at, [cols[0]] + r) && |at| > 0 && at[0] == 0
  {
    at := [0] + seq(|before|, k requires 0 <= k < |before| => before[k] + 1);
  }

  /** What is left is a part of the columns, in order, starting with the first, and no two neighbours
      match. */
  lemma {:induction false} ThinnedPicks(cols: seq<Column>) returns (at: seq<int>)
    ensures Picks(cols, at, Thinned(cols)) && NoneMatch(Thinned(cols))
    ensures |cols| > 0 ==> |at| > 0 && at[0] == 0 && Thinned(cols) != [] && Thinned(cols)[0] == cols[0]
    decreases |cols|
  {
    hide ColumnsMatch, Picks;
    if |cols| < 2 {
      at := PicksAll(cols);
      assert at == [] || at[0] == 0;
    } else if ColumnsMatch(cols[0], cols[1]) {
      var before := ThinnedPicks([cols[0]] + cols[2..]);
      at := PicksWithoutSecond(cols, before, Thinned(cols));
    } else {
      var before := ThinnedPicks(cols[1..]);
      at := PicksWithFirst(cols, before, Thinned(cols[1..]));
    }
  }

  /** Two columns are nowhere more than a tenth of a unit apart in any coordinate. */
  predicate IsNear(a: Column, b: Column) {
    |a| == |b| && forall j | 0 <= j < |a| ::
      -0.1 <= a[j].x - b[j].x <= 0.1 && -0.1 <= a[j].y - b[j].y <= 0.1 && -0.1 <= a[j].z - b[j].z <= 0.1
  }

  /** Every column is near one that is left, and neighbours that are left are not near each other. */
  lemma {:induction false} ThinnedIsNear(cols: seq<Column>)
    ensures forall i | 0 <= i < |cols| :: exists c | c in Thinned(cols) :: IsNear(c, cols[i])
    ensures forall k, m | 0 <= k < m < |Thinned(cols)| && m == k + 1 :: !IsNear(Thinned(cols)[k], Thinned(cols)[m])
    decreases |cols|
  {
    var r := Thinned(cols);
    var at := ThinnedPicks(cols);
    forall k, m | 0 <= k < m < |r| && m == k + 1 ensures !IsNear(r[k], r[m]) {
      MatchIsNear(r[k], r[m]);
    }
    forall i | 0 <= i < |cols| ensures exists c | c in r :: IsNear(c, cols[i]) {
      NearOne(cols, i);
    }
  }

  lemma MatchIsNear(a: Column, b: Column)
    ensures ColumnsMatch(a, b) <==> IsNear(a, b)
  {
  }

  lemma NearItself(a: Column)
    ensures IsNear(a, a)
  {
  }

  lemma {:induction false} NearOne(cols: seq<Column>, i: nat)
    requires i < |cols|
    ensures exists c | c in Thinned(cols) :: IsNear(c, cols[i])
    decreases |cols|
  {
    hide IsNear, ColumnsMatch;
    NearItself(cols[i]);
    if |cols| < 2 {
      assert cols[i] in Thinned(cols);
    } else if ColumnsMatch(cols[0], cols[1]) {
      var fewer := [cols[0]] + cols[2..];
      if i == 1 {
        MatchIsNear(cols[0], cols[1]);
        var at := ThinnedPicks(cols);
        assert cols[0] == Thinned(cols)[0];
      } else {
        NearOne(fewer, if i == 0 then 0 else i - 1);
      }
    } else if i == 0 {
      assert cols[0] == Thinned(cols)[0];
    } else {
      NearOne(cols[1..], i - 1);
      var c :| c in Thinned(cols[1..]) && IsNear(c, cols[i]);
      assert c in Thinned(cols);
    }
  }

  /** The grid with rows and columns exchanged */
  function Transposed(cols: seq<Column>, h: nat): (r: seq<Column>)
    requires Columns(cols, h)
    ensures |r| == h && Columns(r, |cols|)
  {
    seq(h, j requires 0 <= j < h => seq(|cols|, i requires 0 <= i < |cols| => cols[i][j]))
  }

  /** Transposing twice gives the grid back. */
  lemma TransposedTwice(cols: seq<Column>, h: nat)
    requires Columns(cols, h)
    ensures Transposed(Transposed(cols, h), |cols|) == cols
  {
    var r := Transposed(Transposed(cols, h), |cols|);
    forall i | 0 <= i < |cols| ensures r[i] == cols[i] {
      assert |r[i]| == h;
    }
  }

  /** Column i + 1 removed */
  lemma WithoutNext(cols: seq<Column>, i: nat)
    requires i + 1 < |cols|
    ensures
      var r := cols[..i + 1] + cols[i + 2..];
      && r[..i] == cols[..i] && r[i..] == [cols[i]] + cols[i..][2..]
      && r[..i + 1] == cols[..i + 1] && r[i + 1..] == cols[i..][2..]
  {
  }

  lemma KeepOne(cols: seq<Column>, i: nat, tail: seq<Column>)
    requires i < |cols|
    ensures cols[..i + 1] + tail == cols[..i] + ([cols[i..][0]] + tail)
  {
  }

  class Grid {
    var width: nat
    var height: nat
    var wrapWidth: bool
    var wrapHeight: bool
    const points: array2<Vec>

    ghost predicate Valid()
      reads this
    {
      && points.Length0 == points.Length1 == MAX_GRID_SIZE && width <= MAX_GRID_SIZE && height <= MAX_GRID_SIZE
    }

    /** Column x, and all columns */
    ghost function ColumnAt(x: nat): (r: Column)
      requires Valid() && x < MAX_GRID_SIZE
      reads this, points
      ensures |r| == height
    {
      var h := height;
      seq(h, y requires 0 <= y < h <= points.Length1 && x < points.Length0 reads points => points[x, y])
    }

    ghost function All(): (r: seq<Column>)
      requires Valid()
      reads this, points
      ensures |r| == width && Columns(r, height)
    {
      var w := width;
      seq(w, x requires Valid() && 0 <= x < w <= MAX_GRID_SIZE reads this, points => ColumnAt(x))
    }

    constructor ()
      ensures Valid() && width == height == 0 && fresh(points)
    {
      width, height, wrapWidth, wrapHeight := 0, 0, false, false;
      points := new Vec[MAX_GRID_SIZE, MAX_GRID_SIZE];
    }

    /** Moves the points of a row from column `from` on by one to the left. */
    method ShiftRow(y: nat, from: nat)
      requires Valid() && y < height && 1 <= from <= width
      modifies points
      ensures forall x | from - 1 <= x < width - 1 :: points[x, y] == old(points[x + 1, y])
      ensures forall x, z | 0 <= x < MAX_GRID_SIZE && 0 <= z < MAX_GRID_SIZE && (z != y || x < from - 1) ::
        points[x, z] == old(points[x, z])
    {
      var k := from;
      while k < width
        invariant from <= k <= width
        invariant forall x | from - 1 <= x < k - 1 :: points[x, y] == old(points[x + 1, y])
        invariant forall x | k - 1 < x < width :: points[x, y] == old(points[x, y])
        invariant k == from ==> points[k - 1, y] == old(points[k - 1, y])
        invariant forall x, z | 0 <= x < MAX_GRID_SIZE && 0 <= z < MAX_GRID_SIZE && (z != y || x < from - 1) ::
          points[x, z] == old(points[x, z])
      {
        points[k - 1, y] := points[k, y];
        k := k + 1;
      }
    }

    /** Removes column i + 1, row by row. */
    method RemoveColumn(i: nat)
      requires Valid() && i + 1 < width
      modifies this`width, points
      ensures Valid() && All() == old(All()[..i + 1] + All()[i + 2..])
    {
      var j := 0;
      while j < height
        invariant 0 <= j <= height && width == old(width) && height == old(height)
        invariant forall x, y | i < x < width - 1 && 0 <= y < j :: points[x, y] == old(points[x + 1, y])
        invariant forall x, y | 0 <= x < MAX_GRID_SIZE && 0 <= y < MAX_GRID_SIZE && (x <= i || y >= j) ::
          points[x, y] == old(points[x, y])
      {
        ShiftRow(j, i + 2);
        j := j + 1;
      }
      ghost var was := old(All());
      width := width - 1;
      forall x | 0 <= x < width ensures ColumnAt(x) == was[if x <= i then x else x + 1] {
        assert was[x] == old(ColumnAt(x)) && was[x + 1] == old(ColumnAt(x + 1));
      }
      assert All() == was[..i + 1] + was[i + 2..];
    }

    /** Whether the columns from i on need a subdivision */
    method IsBent(i: nat) returns (bent: bool)
      requires Valid() && i + 2 < width
      ensures bent == Bent(ColumnAt(i), ColumnAt(i + 1), ColumnAt(i + 2))
    {
      ghost var a, b, c := ColumnAt(i), ColumnAt(i + 1), ColumnAt(i + 2);
      var j := 0;
      while j < height
        invariant 0 <= j <= height && forall y | 0 <= y < j :: !NeedsSubdivision(a[y], b[y], c[y])
      {
        if NeedsSubdivision(points[i, j], points[i + 1, j], points[i + 2, j]) {
          assert NeedsSubdivision(a[j], b[j], c[j]);
          return true;
        }
        j := j + 1;
      }
      bent := false;
    }

    /** All the points of row y, also those behind the last column */
    ghost function RowAt(y: nat): (r: seq<Vec>)
      requires Valid() && y < MAX_GRID_SIZE
      reads this, points
      ensures |r| == MAX_GRID_SIZE
    {
      seq(MAX_GRID_SIZE, x requires 0 <= x < points.Length0 && y < points.Length1 reads points => points[x, y])
    }

    /** Moves the points of a row from column i + 2 on by two to the right. */
    method MakeRoom(y: nat, i: nat)
      requires Valid() && y < height && i + 2 < width <= MAX_GRID_SIZE - 2
      modifies points
      ensures forall x | i + 1 < x < width :: points[x + 2, y] == old(points[x, y])
      ensures forall x, z | 0 <= x < MAX_GRID_SIZE && 0 <= z < MAX_GRID_SIZE && (z != y || x <= i + 1) ::
        points[x, z] == old(points[x, z])
    {
      var k: int := width - 1;
      while k > i + 1
        invariant i + 1 <= k <= width - 1
        invariant forall x | k < x < width :: points[x + 2, y] == old(points[x, y])
        invariant forall x, z | 0 <= x < MAX_GRID_SIZE && 0 <= z < MAX_GRID_SIZE && (z != y || x <= k) ::
          points[x, z] == old(points[x, z])
      {
        points[k + 2, y] := points[k, y];
        k := k - 1;
      }
    }

    /** Makes room in a row and subdivides its curve at column i. */
    method SubdivideRow(y: nat, i: nat)
      requires Valid() && y < height && i + 2 < width <= MAX_GRID_SIZE - 2
      modifies points
      ensures RowAt(y)[..width + 2] == HalvedRow(old(RowAt(y))[..width], i)
      ensures forall z | 0 <= z < MAX_GRID_SIZE && z != y :: RowAt(z) == old(RowAt(z))
    {
      hide Middle;
      ghost var was := RowAt(y);
      var prev, mid, next := points[i, y], points[i + 1, y], points[i + 2, y];
      MakeRoom(y, i);
      points[i + 1, y] := Middle(prev, mid);
      points[i + 3, y] := Middle(mid, next);
      points[i + 2, y] := Middle(points[i + 1, y], points[i + 3, y]);
      ghost var r := HalvedRow(was[..width], i);
      forall x | 0 <= x < width + 2 ensures RowAt(y)[x] == r[x] {
        if x > i + 3 { assert points[(x - 2) + 2, y] == was[x - 2]; }
      }
    }

    lemma RowsOfColumns(y: nat)
      requires Valid() && y < height
      ensures RowAt(y)[..width] == RowOf(All(), height, y)
    {
      forall x | 0 <= x < width ensures RowAt(y)[x] == RowOf(All(), height, y)[x] {
        assert All()[x] == ColumnAt(x);
      }
    }

    /** Subdivides the curves at column i, row by row. */
    method Subdivide(i: nat)
      requires Valid() && i + 2 < width <= MAX_GRID_SIZE - 2
      modifies this`width, points
      ensures Valid() && height == old(height) && All() == old(All()[..i] + Halved(All()[i..], height))
    {
      hide Middle, HalvedRow;
      ghost var was := All();
      ghost var rows := seq(height, y requires Valid() && 0 <= y < MAX_GRID_SIZE reads this, points => RowAt(y));
      var j := 0;
      while j < height
        invariant 0 <= j <= height && width == old(width) && height == old(height) && |rows| == height
        invariant forall y | 0 <= y < height :: |rows[y]| == MAX_GRID_SIZE
        invariant forall y | 0 <= y < j :: RowAt(y)[..width + 2] == HalvedRow(rows[y][..width], i)
        invariant forall y | j <= y < height :: RowAt(y) == rows[y]
      {
        SubdivideRow(j, i);
        j := j + 1;
      }
      width := width + 2;
      forall y | 0 <= y < height ensures RowOf(All(), height, y) == HalvedRow(RowOf(was, height, y), i) {
        RowsOfColumns(y);
        assert rows[y][..width - 2] == RowOf(was, height, y);
      }
      HalvedByRows(was, All(), height, i);
    }

    /** Subdivides or drops the control columns until every curve is close to its chords. */
    method SubdivideGridColumns()
      requires Valid() && Room(All(), height, width)
      modifies this`width, points
      ensures Valid() && height == old(height) && All() == RefinedAll(old(All()), height)
    {
      hide Room, RefinedAll, Steps, Halved, Bent;
      ghost var was := All();
      assert was[0..] == was && was[..0] == [];
      var i := 0;
      while i + 2 < width
        invariant Valid() && height == old(height) && 0 <= i <= width
        invariant All()[..i] + RefinedAll(All()[i..], height) == RefinedAll(was, height)
        invariant Room(All()[i..], height, width)
        decreases Steps(All()[i..], height)
      {
        ghost var now, rest := All(), All()[i..];
        var bent := IsBent(i);
        assert rest[0] == ColumnAt(i) && rest[1] == ColumnAt(i + 1) && rest[2] == ColumnAt(i + 2);
        if !bent {
          FlatIsRefined(rest, height, width);
          RemoveColumn(i);
          WithoutNext(now, i);
          KeepOne(now, i, RefinedAll(rest[2..], height));
          i := i + 1;
        } else {
          HalvedIsRefined(rest, height);
          HalvedHasRoom(rest, height, width);
          assert width + 2 <= MAX_GRID_SIZE;
          Subdivide(i);
          assert All() == now[..i] + Halved(rest, height);
          assert All()[..i] == now[..i] && All()[i..] == Halved(rest, height);
        }
      }
      ShortIsRefined(All()[i..], height);
    }

    /** Whether columns i and i + 1 match */
    method AreDegenerate(i: nat) returns (same: bool)
      requires Valid() && i + 1 < width
      ensures same == ColumnsMatch(ColumnAt(i), ColumnAt(i + 1))
    {
      hide PointsMatch;
      ghost var a, b := ColumnAt(i), ColumnAt(i + 1);
      var j := 0;
      while j < height
        invariant 0 <= j <= height && forall y | 0 <= y < j :: PointsMatch(a[y], b[y])
      {
        if !PointsMatch(points[i, j], points[i + 1, j]) {
          assert !PointsMatch(a[j], b[j]);
          return false;
        }
        j := j + 1;
      }
      same := true;
    }

    /** Drops every column that matches the one kept before it. */
    method RemoveDegenerateColumns()
      requires Valid()
      modifies this`width, points
      ensures Valid() && height == old(height) && All() == Thinned(old(All()))
    {
      hide ColumnsMatch, Thinned;
      ghost var was := All();
      assert was[0..] == was && was[..0] == [];
      var i := 0;
      while i < width - 1
        invariant Valid() && height == old(height) && 0 <= i <= width
        invariant All()[..i] + Thinned(All()[i..]) == Thinned(was)
        decreases width - i
      {
        ghost var now, rest := All(), All()[i..];
        var same := AreDegenerate(i);
        assert rest[0] == ColumnAt(i) && rest[1] == ColumnAt(i + 1);
        if same {
          RemoveColumn(i);
          WithoutNext(now, i);
          ThinnedDrops(rest);
          i := i - 1;
        } else {
          assert now[i + 1..] == rest[1..];
          ThinnedKeeps(rest);
          KeepOne(now, i, Thinned(rest[1..]));
        }
        i := i + 1;
      }
      ThinnedShort(All()[i..]);
    }

    /** Turns a grid that is wider than high. */
    method TurnWide()
      requires Valid() && width > height
      modifies points
      ensures forall x, y | 0 <= x < height && 0 <= y < width :: points[x, y] == old(points[y, x])
    {
      var i := 0;
      while i < height
        invariant 0 <= i <= height
        invariant forall x, y | 0 <= x < height && 0 <= y < width && (x < i || y < i) ::
            points[x, y] == old(points[y, x])
        invariant forall x, y | i <= x < width && i <= y < width :: points[x, y] == old(points[x, y])
      {
        var j := i + 1;
        while j < width
          invariant i < j <= width
          invariant forall x, y | 0 <= x < height && 0 <= y < width && (x < i || y < i) ::
            points[x, y] == old(points[y, x])
          invariant forall y | i <= y < j :: points[i, y] == old(points[y, i])
          invariant forall x | i <= x < j && x < height :: points[x, i] == old(points[i, x])
          invariant forall x, y | i < x < width && i < y < width :: points[x, y] == old(points[x, y])
          invariant forall z | j <= z < width :: points[i, z] == old(points[i, z]) && points[z, i] == old(points[z, i])
        {
          if j < height {
            var temp := points[i, j];
            points[i, j] := points[j, i];
            points[j, i] := temp;
          } else {
            points[i, j] := points[j, i];
          }
          j := j + 1;
        }
        i := i + 1;
      }
    }

    /** Turns a grid that is at least as high as it is wide. */
    method TurnHigh()
      requires Valid() && width <= height
      modifies points
      ensures forall x, y | 0 <= x < height && 0 <= y < width :: points[x, y] == old(points[y, x])
    {
      var i := 0;
      while i < width
        invariant 0 <= i <= width
        invariant forall x, y | 0 <= x < height && 0 <= y < width && (x < i || y < i) ::
            points[x, y] == old(points[y, x])
        invariant forall x, y | i <= x < height && i <= y < height :: points[x, y] == old(points[x, y])
      {
        var j := i + 1;
        while j < height
          invariant i < j <= height
          invariant forall x, y | 0 <= x < height && 0 <= y < width && (x < i || y < i) ::
            points[x, y] == old(points[y, x])
          invariant forall x | i <= x < j :: points[x, i] == old(points[i, x])
          invariant forall y | i <= y < j && y < width :: points[i, y] == old(points[y, i])
          invariant forall x, y | i < x < height && i < y < height :: points[x, y] == old(points[x, y])
          invariant forall z | j <= z < height :: points[i, z] == old(points[i, z]) && points[z, i] == old(points[z, i])
        {
          if j < width {
            var temp := points[j, i];
            points[j, i] := points[i, j];
            points[i, j] := temp;
          } else {
            points[j, i] := points[i, j];
          }
          j := j + 1;
        }
        i := i + 1;
      }
    }

    /** Swaps the rows and columns in place. */
    method TransposeGrid()
      requires Valid()
      modifies this, points
      ensures Valid() && width == old(height) && height == old(width)
      ensures wrapWidth == old(wrapHeight) && wrapHeight == old(wrapWidth)
      ensures All() == Transposed(old(All()), old(height))
    {
      ghost var was := All();
      if width > height {
        TurnWide();
      } else {
        TurnHigh();
      }
      var l := width;
      width := height;
      height := l;
      var tempWrap := wrapWidth;
      wrapWidth := wrapHeight;
      wrapHeight := tempWrap;
      ghost var r := Transposed(was, width);
      forall x | 0 <= x < width ensures All()[x] == r[x] {
        forall y | 0 <= y < height ensures ColumnAt(x)[y] == r[x][y] {
          assert was[y] == old(ColumnAt(y));
        }
      }
    }
  }

  /** A row of a grid */
  function RowOf(cols: seq<Column>, h: nat, y: nat): (r: seq<Vec>)
    requires Columns(cols, h) && y < h
    ensures |r| == |cols|
  {
    seq(|cols|, x requires 0 <= x < |cols| => cols[x][y])
  }

  /** A row whose curve at column i has been subdivided */
  function HalvedRow(r: seq<Vec>, i: nat): (s: seq<Vec>)
    requires i + 2 < |r|
    ensures |s| == |r| + 2
  {
    var m1, m3 := Middle(r[i], r[i + 1]), Middle(r[i + 1], r[i + 2]);
    r[..i + 1] + [m1, Middle(m1, m3), m3] + r[i + 2..]
  }

  /** A grid is subdivided if each of its rows is. */
  lemma HalvedByRows(cols: seq<Column>, r: seq<Column>, h: nat, i: nat)
    requires Columns(cols, h) && Columns(r, h) && i + 2 < |cols| && |r| == |cols| + 2
    requires forall y | 0 <= y < h :: RowOf(r, h, y) == HalvedRow(RowOf(cols, h, y), i)
    ensures r == cols[..i] + Halved(cols[i..], h)
  {
    hide Middle;
    var s := cols[..i] + Halved(cols[i..], h);
    forall x | 0 <= x < |r| ensures r[x] == s[x] {
      forall y | 0 <= y < h ensures r[x][y] == s[x][y] {
        assert r[x][y] == RowOf(r, h, y)[x];
        assert forall z | 0 <= z < |cols| :: cols[z][y] == RowOf(cols, h, y)[z];
      }
    }
  }
}
