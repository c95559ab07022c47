/** Where `SurfaceNets.Run` puts the vertex of a mixed cell: the cell's lowest
    corner plus the average, over the crossed edges, of the point where the
    density changes sign along the edge.  Densities are exact reals here, so
    the single-precision rounding of the C# code is not modelled. */
module SurfaceNetsVertex {
  import opened Bits
  import opened SurfaceNetsTables
  import opened SurfaceNetsGrid

  /** The threshold `1e-6` below which an edge counts as degenerate. */
  const EPSILON: real := 1.0 / 1000000.0

  function Abs(r: real): (a: real)
    ensures a >= 0.0 && (a == r || a == -r)
  {
    if r < 0.0 then -r else r
  }

  /** The fraction `g0 / (g0 - g1)` of the way from corner e0 to corner e1 at
      which the linear interpolation of the two densities is zero. */
  function Crossing(g0: real, g1: real): real
    requires g0 != g1
  {
    g0 / (g0 - g1)
  }

  /** What edge (e0, e1) with crossing fraction t adds to component j of the
      running sum: t along the edge's own axis (1 - t if it ran downwards),
      and 0 or 1 on the other axes depending on the side the edge lies on. */
  function Offset(e0: nat, e1: nat, t: real, j: nat): real
  {
    if Bit(e0, j) != Bit(e1, j) then (if Bit(e0, j) then 1.0 - t else t)
    else if Bit(e0, j) then 1.0 else 0.0
  }

  /** The running sum `v` after the inner loop has added components 0 .. j-1. */
  function AddOffsets(v: seq<real>, e0: nat, e1: nat, t: real, j: nat): (r: seq<real>)
    requires |v| == 3
    ensures |r| == 3
  {
    seq(3, q requires 0 <= q < 3 => if q < j then v[q] + Offset(e0, e1, t, q) else v[q])
  }

  /** One round of the inner loop: component j gets the offset that the
      bit tests `e0 & (1 << j)` and `e1 & (1 << j)` select. */
  lemma AddOffsetsStep(v0: seq<real>, e0: nat, e1: nat, t: real, j: nat, v: seq<real>)
    requires |v0| == 3 && j < 3 && v == AddOffsets(v0, e0, e1, t, j)
    ensures var a, b := And(e0, Pow2(j)), And(e1, Pow2(j));
      v[j := v[j] + if a != b then (if Boolean(a) then 1.0 - t else t) else (if Boolean(a) then 1.0 else 0.0)]
      == AddOffsets(v0, e0, e1, t, j + 1)
  {
    AndPow2(e0, j);
    AndPow2(e1, j);
    BitOfPow2(j, j);
  }

  /** The running sum after the edge loop has looked at edges 0 .. i-1 of a
      cell with corner densities `grid` and edge mask `em`; uncrossed and
      degenerate edges add nothing. */
  function EdgeSum(grid: seq<real>, em: nat, i: nat): (r: seq<real>)
    requires |grid| == 8 && i <= 12
    ensures |r| == 3
  {
    if i == 0 then [0.0, 0.0, 0.0]
    else
      var v := EdgeSum(grid, em, i - 1);
      CubeEdgeShape(i - 1);
      var e0, e1 := CUBE_EDGES[2 * (i - 1)], CUBE_EDGES[2 * (i - 1) + 1];
      var g0, g1 := grid[e0], grid[e1];
      if !Bit(em, i - 1) || Abs(g0 - g1) <= EPSILON then v
      else AddOffsets(v, e0, e1, Crossing(g0, g1), 3)
  }

  /** One round of the edge loop: edge i adds its crossing point when its bit
      is set in `em` and its densities are more than `EPSILON` apart. */
  lemma EdgeSumStep(grid: seq<real>, em: nat, i: nat, v: seq<real>)
    requires |grid| == 8 && i < 12 && v == EdgeSum(grid, em, i)
    ensures CUBE_EDGES[2 * i] < 8 && CUBE_EDGES[2 * i + 1] < 8
    ensures var g0, g1 := grid[CUBE_EDGES[2 * i]], grid[CUBE_EDGES[2 * i + 1]];
      EdgeSum(grid, em, i + 1) ==
        if !Bit(em, i) || Abs(g0 - g1) <= EPSILON then v
        else AddOffsets(v, CUBE_EDGES[2 * i], CUBE_EDGES[2 * i + 1], Crossing(g0, g1), 3)
  {
    CubeEdgeShape(i);
  }

  /** The offset of the vertex from the cell's lowest corner: the running sum
      after all twelve edges, scaled by `1 / e_count`. */
  function Average(grid: seq<real>): (r: seq<real>)
    requires |grid| == 8 && Mixed(SignMask(grid))
    ensures |r| == 3
  {
    var m := SignMask(grid);
    SignMaskBits(grid, 0);
    assert Pow2(8) == 256;
    MixedHasCrossing(m);
    var em := EdgeTable(m);
    Scaled(EdgeSum(grid, em, EDGES), 1.0 / (PopCount(em, EDGES) as real))
  }

  /** `s * v[i]` for each coordinate i. */
  function Scaled(v: seq<real>, s: real): (r: seq<real>)
    requires |v| == 3
    ensures |r| == 3
  {
    [s * v[0], s * v[1], s * v[2]]
  }

  /** `x[i] + a[i]` for each coordinate i: offset `a` from grid point `x`. */
  function AtCorner(x: seq<int>, a: seq<real>): (r: seq<real>)
    requires |x| == 3 && |a| == 3
    ensures |r| == 3
  {
    [x[0] as real + a[0], x[1] as real + a[1], x[2] as real + a[2]]
  }

  /** The position `Run` emits for mixed cell `c`. */
  function VertexPosition(d: seq<real>, w: int, h: int, c: Cell): (r: seq<real>)
    requires MixedCell(d, w, h, c)
    ensures |r| == 3
  {
    AtCorner([c.x, c.y, c.z], Average(CellGrid(d, w, h, c)))
  }

  /** The scaled edge sum of a mixed cell, moved to the cell's corner, is
      `VertexPosition`. */
  lemma VertexFromSums(d: seq<real>, w: int, h: int, c: Cell, sum: seq<real>, eCount: nat, s: real)
    requires MixedCell(d, w, h, c)
    requires sum == EdgeSum(CellGrid(d, w, h, c), EdgeTable(CellMask(d, w, h, c)), EDGES)
    requires eCount == PopCount(EdgeTable(CellMask(d, w, h, c)), EDGES) && eCount >= 1 && s == 1.0 / (eCount as real)
    ensures AtCorner([c.x, c.y, c.z], Scaled(sum, s)) == VertexPosition(d, w, h, c)
  {
    AverageIsScaledSum(CellGrid(d, w, h, c));
  }

  /** `Average` is the edge sum scaled by the reciprocal of the crossing count,
      which is at least 1. */
  lemma AverageIsScaledSum(grid: seq<real>)
    requires |grid| == 8 && Mixed(SignMask(grid))
    ensures var em := EdgeTable(SignMask(grid));
      PopCount(em, EDGES) >= 1 &&
      Average(grid) == Scaled(EdgeSum(grid, em, EDGES), 1.0 / (PopCount(em, EDGES) as real))
  {
    MixedGridHasCrossing(grid);
  }

  // ---------------------------------------------------------------------
  // Properties

  /** The crossing fraction is where the linear interpolation vanishes, and it
      lies on the edge when the two densities have different signs. */
  lemma CrossingIsRoot(g0: real, g1: real)
    requires g0 != g1
    ensures g0 + Crossing(g0, g1) * (g1 - g0) == 0.0
    ensures (g0 < 0.0) != (g1 < 0.0) ==> 0.0 <= Crossing(g0, g1) <= 1.0
  {
    var t := Crossing(g0, g1);
    assert t * (g0 - g1) == g0;
    if g0 < 0.0 && g1 >= 0.0 {
      assert g0 - g1 < 0.0;
      assert t >= 0.0;
      assert t <= 1.0;
    } else if g0 >= 0.0 && g1 < 0.0 {
      assert g0 - g1 > 0.0;
      assert t >= 0.0;
      assert t <= 1.0;
    }
  }

  /** Each offset of an edge whose crossing lies on it is between 0 and 1. */
  lemma OffsetInUnit(e0: nat, e1: nat, t: real, j: nat)
    requires 0.0 <= t <= 1.0
    ensures 0.0 <= Offset(e0, e1, t, j) <= 1.0
  {
  }

  /** Each component of the running sum is between 0 and the number of
      crossed edges seen so far. */
  lemma {:induction false} EdgeSumBounds(grid: seq<real>, i: nat, q: nat)
    requires |grid| == 8 && i <= 12 && q < 3
    ensures 0.0 <= EdgeSum(grid, EdgeTable(SignMask(grid)), i)[q]
    ensures EdgeSum(grid, EdgeTable(SignMask(grid)), i)[q] <= PopCount(EdgeTable(SignMask(grid)), i) as real
  {
    if i > 0 {
      EdgeSumBounds(grid, i - 1, q);
      EdgeSumBoundsStep(grid, i - 1, q);
    }
  }

  /** Edge i adds nothing, or (when it is crossed) between 0 and 1, to each
      component of the running sum. */
  lemma EdgeSumBoundsStep(grid: seq<real>, i: nat, q: nat)
    requires |grid| == 8 && i < 12 && q < 3
    ensures var em := EdgeTable(SignMask(grid));
      var before, after := EdgeSum(grid, em, i)[q], EdgeSum(grid, em, i + 1)[q];
      if Bit(em, i) then before <= after <= before + 1.0 else after == before
  {
    var m := SignMask(grid);
    var em := EdgeTable(m);
    EdgeSumStep(grid, em, i, EdgeSum(grid, em, i));
    var e0, e1 := CUBE_EDGES[2 * i], CUBE_EDGES[2 * i + 1];
    var g0, g1 := grid[e0], grid[e1];
    if Bit(em, i) && Abs(g0 - g1) > EPSILON {
      EdgeTableBits(m, i);
      SignMaskBits(grid, e0);
      SignMaskBits(grid, e1);
      CrossingIsRoot(g0, g1);
      OffsetInUnit(e0, e1, Crossing(g0, g1), q);
    }
  }

  /** Scaling by a non-negative factor keeps an inequality. */
  lemma ScaleMonotone(s: real, a: real, b: real)
    requires 0.0 <= s && a <= b
    ensures s * a <= s * b
  {
  }

  /** Dividing a sum of at most `count` unit terms by `count` gives a value
      between 0 and 1. */
  lemma AverageBound(v: real, count: real)
    requires count >= 1.0 && 0.0 <= v <= count
    ensures 0.0 <= (1.0 / count) * v <= 1.0
  {
    var s := 1.0 / count;
    assert s * count == 1.0;
    ScaleMonotone(s, 0.0, v);
    ScaleMonotone(s, v, count);
  }

  lemma MixedGridHasCrossing(grid: seq<real>)
    requires |grid| == 8 && Mixed(SignMask(grid))
    ensures PopCount(EdgeTable(SignMask(grid)), EDGES) >= 1
  {
    SignMaskBits(grid, 0);
    assert Pow2(8) == 256;
    MixedHasCrossing(SignMask(grid));
  }

  /** The averaged offset of a mixed cell is between 0 and 1. */
  lemma AverageInUnit(grid: seq<real>, q: nat)
    requires |grid| == 8 && q < 3 && Mixed(SignMask(grid))
    ensures 0.0 <= Average(grid)[q] <= 1.0
  {
    AverageIsScaledSum(grid);
    EdgeSumBounds(grid, EDGES, q);
    var em := EdgeTable(SignMask(grid));
    var v := EdgeSum(grid, em, EDGES);
    ScaledInUnit(v, PopCount(em, EDGES) as real, q);
  }

  /** Scaling a component between 0 and `count` by `1 / count` lands in the unit interval. */
  lemma ScaledInUnit(v: seq<real>, count: real, q: nat)
    requires |v| == 3 && q < 3 && count >= 1.0 && 0.0 <= v[q] <= count
    ensures 0.0 <= Scaled(v, 1.0 / count)[q] <= 1.0
  {
    AverageBound(v[q], count);
    assert Scaled(v, 1.0 / count)[q] == (1.0 / count) * v[q];
  }

  lemma AtCornerComponent(x: seq<int>, a: seq<real>, q: nat)
    requires |x| == 3 && |a| == 3 && q < 3
    ensures AtCorner(x, a)[q] == x[q] as real + a[q]
  {
  }

  /** The vertex of a mixed cell lies inside that cell: each coordinate is
      between the cell's lowest corner and one unit above it. */
  lemma VertexInCell(d: seq<real>, w: int, h: int, c: Cell, q: nat)
    requires MixedCell(d, w, h, c) && q < 3
    ensures Coord(c, q) as real <= VertexPosition(d, w, h, c)[q] <= Coord(c, q) as real + 1.0
  {
    AverageInUnit(CellGrid(d, w, h, c), q);
    AtCornerComponent([c.x, c.y, c.z], Average(CellGrid(d, w, h, c)), q);
  }
}
