/** Geometry of one `SurfaceNets.Run` sweep: cells, their corner sign masks,
    the slots of the two-slice ring `vertexBuffer`, and the faces the sweep
    emits.  These are the functions the extractor's loops are
    proved against. */
module SurfaceNetsGrid {
  import opened Bits
  import opened DensityGrid
  import opened SurfaceNetsTables

  /** The cell whose lowest corner is grid point (x, y, z).  The model's mesh
      vertex is the cell that produced it: its floating-point position inside
      the cell is not modelled. */
  datatype Cell = Cell(x: int, y: int, z: int)

  /** The quad built at `cell` around the grid edge that leaves the cell's
      corner 0 along `axis` (0 = x, 1 = y, 2 = z). */
  datatype Face = Face(cell: Cell, axis: nat)

  function Coord(c: Cell, axis: nat): int
  {
    if axis == 0 then c.x else if axis == 1 then c.y else c.z
  }

  /** The neighbouring cell one step down `axis`. */
  function Back(c: Cell, axis: nat): Cell
  {
    if axis == 0 then c.(x := c.x - 1) else if axis == 1 then c.(y := c.y - 1) else c.(z := c.z - 1)
  }

  /** The density at a grid point; points outside the data read as 0. */
  function Density(d: seq<real>, w: int, h: int, x: int, y: int, z: int): real
  {
    var i := Index(w, h, x, y, z);
    if 0 <= i < |d| then d[i] else 0.0
  }

  /** `grid[g]` for cell `c`: the density at corner g = i + 2j + 4k. */
  function Corner(d: seq<real>, w: int, h: int, c: Cell, g: int): real
  {
    Density(d, w, h, c.x + g % 2, c.y + g / 2 % 2, c.z + g / 4)
  }

  /** The eight corner densities of cell `c`, in the order `Run` loads them. */
  function CellGrid(d: seq<real>, w: int, h: int, c: Cell): seq<real>
  {
    seq(8, g => Corner(d, w, h, c, g))
  }

  /** `mask |= (p < 0) ? (1 << g) : 0` over the corners loaded so far. */
  function SignMask(s: seq<real>): nat
  {
    if |s| == 0 then 0
    else Or(SignMask(s[..|s| - 1]), if s[|s| - 1] < 0.0 then Pow2(|s| - 1) else 0)
  }

  function CellMask(d: seq<real>, w: int, h: int, c: Cell): nat
  {
    SignMask(CellGrid(d, w, h, c))
  }

  /** The surface passes through a cell when its corners are not all of one
      sign, i.e. its mask is neither 0 nor 0xFF. */
  predicate Mixed(m: nat)
  {
    m != 0 && m != 255
  }

  predicate MixedCell(d: seq<real>, w: int, h: int, c: Cell)
  {
    Mixed(CellMask(d, w, h, c))
  }

  /** The cells the sweep visits: all of them but the last layer on each axis. */
  predicate InCells(w: int, h: int, p: int, c: Cell)
  {
    0 <= c.x < w - 1 && 0 <= c.y < h - 1 && 0 <= c.z < p - 1
  }

  /** Sweep order: z outermost, then y, then x. */
  predicate Before(a: Cell, b: Cell)
  {
    a.z < b.z || (a.z == b.z && (a.y < b.y || (a.y == b.y && a.x < b.x)))
  }

  predicate FaceBefore(f: Face, g: Face)
  {
    Before(f.cell, g.cell) || (f.cell == g.cell && f.axis < g.axis)
  }

  /** Slot of cell `c` in `vertexBuffer`: a (w+1)×(h+1) slice per z parity,
      with a one-slot margin before x and y so the back neighbours exist. */
  function Slot(w: int, h: int, c: Cell): int
  {
    1 + c.x + (w + 1) * (1 + c.y) + ((c.z + 1) % 2) * ((w + 1) * (h + 1))
  }

  /** `R[2]` during slice z: `(w+1)*(h+1)`, negated on every slice. */
  function ZStride(w: int, h: int, z: int): int
  {
    if z % 2 == 0 then (w + 1) * (h + 1) else -((w + 1) * (h + 1))
  }

  /** `R[axis]` during slice z. */
  function Stride(w: int, h: int, z: int, axis: nat): int
  {
    if axis == 0 then 1 else if axis == 1 then w + 1 else ZStride(w, h, z)
  }

  /** A face is emitted at a cell for `axis` when the edge from corner 0 along
      `axis` is crossed and the cell is off the boundary on both other axes. */
  predicate Eligible(d: seq<real>, w: int, h: int, p: int, f: Face)
  {
    f.axis < 3 && InCells(w, h, p, f.cell) && Crossed(CellMask(d, w, h, f.cell), f.axis) &&
    Coord(f.cell, (f.axis + 1) % 3) != 0 && Coord(f.cell, (f.axis + 2) % 3) != 0
  }

  /** The six indices appended for a quad whose vertices are `a` (this cell),
      `b` (back along u), `c` (back along v) and `e` (back along both). */
  function QuadTriangles(a: int, b: int, c: int, e: int, flip: bool): seq<int>
  {
    if flip then [a, c, b, c, e, b] else [a, b, c, b, e, c]
  }

  /** The six entries of `t` from `at` on are `QuadTriangles(a, b, c, e, flip)`. */
  predicate QuadAt(t: seq<int>, at: int, a: int, b: int, c: int, e: int, flip: bool)
    requires 0 <= at && at + 6 <= |t|
  {
    t[at] == a && t[at + 4] == e &&
    if flip then t[at + 1] == c && t[at + 2] == b && t[at + 3] == c && t[at + 5] == b
    else t[at + 1] == b && t[at + 2] == c && t[at + 3] == b && t[at + 5] == c
  }

  /** Quad `q` of `tris` is the quad of face `f`: its indices name the vertices
      of the cell and of its three back neighbours around the crossed edge,
      wound by bit 0 of the cell's mask. */
  ghost predicate QuadOK(d: seq<real>, w: int, h: int, vs: seq<Cell>, tris: seq<int>, q: int, f: Face)
  {
    var u := (f.axis + 1) % 3;
    var v := (f.axis + 2) % 3;
    var flip := Bit(CellMask(d, w, h, f.cell), 0);
    0 <= q && 6 * q + 6 <= |tris| &&
    var a := tris[6 * q];
    var e := tris[6 * q + 4];
    var b := if flip then tris[6 * q + 2] else tris[6 * q + 1];
    var c := if flip then tris[6 * q + 1] else tris[6 * q + 2];
    QuadAt(tris, 6 * q, a, b, c, e, flip) &&
    0 <= a < |vs| && 0 <= b < |vs| && 0 <= c < |vs| && 0 <= e < |vs| &&
    vs[a] == f.cell && vs[b] == Back(f.cell, u) && vs[c] == Back(f.cell, v) &&
    vs[e] == Back(Back(f.cell, u), v)
  }

  /** `vs` lists, in sweep order, exactly the mixed cells before `cur`. */
  ghost predicate VerticesUpTo(d: seq<real>, w: int, h: int, p: int, vs: seq<Cell>, cur: Cell)
  {
    (forall k :: 0 <= k < |vs| ==> InCells(w, h, p, vs[k]) && MixedCell(d, w, h, vs[k]) && Before(vs[k], cur)) &&
    (forall c :: InCells(w, h, p, c) && MixedCell(d, w, h, c) && Before(c, cur) ==> c in vs) &&
    (forall k, l :: 0 <= k < l < |vs| ==> Before(vs[k], vs[l]))
  }

  /** `faces` lists, in order, exactly the eligible faces before `upto`, and
      `tris` holds their quads. */
  ghost predicate FacesUpTo(d: seq<real>, w: int, h: int, p: int, vs: seq<Cell>, tris: seq<int>, faces: seq<Face>, upto: Face)
  {
    |tris| == 6 * |faces| &&
    (forall q :: 0 <= q < |faces| ==>
      Eligible(d, w, h, p, faces[q]) && FaceBefore(faces[q], upto) && QuadOK(d, w, h, vs, tris, q, faces[q])) &&
    (forall f :: Eligible(d, w, h, p, f) && FaceBefore(f, upto) ==> f in faces) &&
    (forall q, r :: 0 <= q < r < |faces| ==> FaceBefore(faces[q], faces[r]))
  }

  /** Every mixed cell before `cur` in the current or previous slice has its
      vertex index in its ring-buffer slot. */
  ghost predicate BufferUpTo(d: seq<real>, w: int, h: int, p: int, vb: seq<int>, vs: seq<Cell>, cur: Cell)
  {
    forall c {:trigger Before(c, cur)} :: InCells(w, h, p, c) && MixedCell(d, w, h, c) && Before(c, cur) && cur.z <= c.z + 1 ==>
      0 <= Slot(w, h, c) < |vb| && 0 <= vb[Slot(w, h, c)] < |vs| && vs[vb[Slot(w, h, c)]] == c
  }

  // ---------------------------------------------------------------------
  // Masks

  lemma {:induction false} SignMaskBits(s: seq<real>, g: nat)
    ensures SignMask(s) < Pow2(|s|)
    ensures Bit(SignMask(s), g) <==> g < |s| && s[g] < 0.0
  {
    if |s| == 0 {
      BitOfZero(g);
    } else {
      var s' := s[..|s| - 1];
      var bit := if s[|s| - 1] < 0.0 then Pow2(|s| - 1) else 0;
      SignMaskBits(s', g);
      BitOfOr(SignMask(s'), bit, g);
      if s[|s| - 1] < 0.0 { BitOfPow2(|s| - 1, g); } else { BitOfZero(g); }
      OrBound(SignMask(s'), bit, |s|);
    }
  }

  /** Loading one more corner ors its sign bit into the mask. */
  lemma SignMaskSnoc(s: seq<real>, v: real)
    ensures SignMask(s + [v]) == Or(SignMask(s), if v < 0.0 then Pow2(|s|) else 0)
  {
    assert (s + [v])[..|s|] == s;
  }

  /** The mask is an 8-bit value whose bit g says corner g is negative. */
  lemma CellMaskBits(d: seq<real>, w: int, h: int, c: Cell, g: nat)
    ensures CellMask(d, w, h, c) < 256
    ensures Bit(CellMask(d, w, h, c), g) <==> g < 8 && Corner(d, w, h, c, g) < 0.0
  {
    SignMaskBits(CellGrid(d, w, h, c), g);
    assert Pow2(8) == 256;
  }

  /** Corner g = i + 2j + 4k of a cell of the sweep is read at linear index
      `n + i + j*w + k*w*h`, where n is the index of the cell's lowest corner. */
  lemma CornerAt(d: seq<real>, w: int, h: int, p: int, c: Cell, i: int, j: int, k: int)
    requires InCells(w, h, p, c) && w * h * p <= |d|
    requires 0 <= i < 2 && 0 <= j < 2 && 0 <= k < 2
    ensures var idx := Index(w, h, c.x, c.y, c.z) + k * (w * h) + j * w + i;
      0 <= idx < |d| && Corner(d, w, h, c, 4 * k + 2 * j + i) == d[idx]
  {
    var g := 4 * k + 2 * j + i;
    assert g % 2 == i && g / 2 % 2 == j && g / 4 == k;
    IndexShift(w, h, c.x, c.y, c.z, i, j, k);
    IndexInRange(w, h, p, c.x + i, c.y + j, c.z + k);
  }

  /** A mask with two corners of different sign is mixed. */
  lemma SplitMaskIsMixed(m: nat, g1: nat, g2: nat)
    requires m < 256 && g1 < 8 && g2 < 8 && Bit(m, g1) != Bit(m, g2)
    ensures Mixed(m)
  {
    if m == 0 {
      BitOfZero(g1);
      BitOfZero(g2);
    }
    if m == 255 {
      assert Pow2(8) - 1 - 0 == 255;
      ComplementBit(0, 8, g1);
      ComplementBit(0, 8, g2);
      BitOfZero(g1);
      BitOfZero(g2);
    }
  }

  lemma SplitCellIsMixed(d: seq<real>, w: int, h: int, c: Cell, g1: nat, g2: nat)
    requires g1 < 8 && g2 < 8
    requires (Corner(d, w, h, c, g1) < 0.0) != (Corner(d, w, h, c, g2) < 0.0)
    ensures MixedCell(d, w, h, c)
  {
    CellMaskBits(d, w, h, c, g1);
    CellMaskBits(d, w, h, c, g2);
    SplitMaskIsMixed(CellMask(d, w, h, c), g1, g2);
  }

  /** A cell whose eight corners all have the same sign is not mixed. */
  lemma UniformCellNotMixed(d: seq<real>, w: int, h: int, c: Cell)
    requires (forall g :: 0 <= g < 8 ==> Corner(d, w, h, c, g) >= 0.0) ||
             (forall g :: 0 <= g < 8 ==> Corner(d, w, h, c, g) < 0.0)
    ensures !MixedCell(d, w, h, c)
  {
    var m := CellMask(d, w, h, c);
    CellMaskBits(d, w, h, c, 0);
    assert Pow2(8) == 256;
    if forall g :: 0 <= g < 8 ==> Corner(d, w, h, c, g) >= 0.0 {
      forall g | 0 <= g < 8
        ensures !Bit(m, g)
      {
        CellMaskBits(d, w, h, c, g);
      }
      NoBitsIsZero(m, 8);
    } else {
      forall g | 0 <= g < 8
        ensures Bit(m, g)
      {
        CellMaskBits(d, w, h, c, g);
      }
      AllBitsIsMax(m, 8);
    }
  }

  /** A grid whose densities all have one sign has no mixed cell, so the
      sweep adds no vertex (and hence no triangle). */
  lemma UniformGridNoMixedCell(d: seq<real>, w: int, h: int, p: int, c: Cell)
    requires |d| == w * h * p && InCells(w, h, p, c)
    requires (forall i :: 0 <= i < |d| ==> d[i] >= 0.0) || (forall i :: 0 <= i < |d| ==> d[i] < 0.0)
    ensures !MixedCell(d, w, h, c)
  {
    forall g | 0 <= g < 8
      ensures 0 <= Index(w, h, c.x + g % 2, c.y + g / 2 % 2, c.z + g / 4) < |d|
    {
      IndexInRange(w, h, p, c.x + g % 2, c.y + g / 2 % 2, c.z + g / 4);
    }
    UniformCellNotMixed(d, w, h, c);
  }

  // ---------------------------------------------------------------------
  // Ring-buffer slots

  /** Stepping back along an axis moves the slot back by that axis' stride;
      along z this lands in the other half of the buffer. */
  lemma SlotBack(w: int, h: int, c: Cell, axis: nat)
    requires axis < 3
    ensures Slot(w, h, Back(c, axis)) == Slot(w, h, c) - Stride(w, h, c.z, axis)
  {
    if axis == 1 {
      assert (w + 1) * (1 + (c.y - 1)) == (w + 1) * (1 + c.y) - (w + 1);
    }
  }

  /** `m = 1 + (w+1) * (1 + buf_no * (h+1))` at the start of slice z is
      the slot of the slice's first cell. */
  lemma SlotOfRowStart(w: int, h: int, z: int, bufNo: int)
    requires bufNo == (z + 1) % 2
    ensures 1 + (w + 1) * (1 + bufNo * (h + 1)) == Slot(w, h, Cell(0, 0, z))
  {
    if bufNo == 1 {
      assert (w + 1) * (1 + (h + 1)) == (w + 1) + (w + 1) * (h + 1);
    }
  }

  /** After the w - 1 cells of row y, `++n` and `m += 2` reach the first
      cell of row y + 1. */
  lemma NextRow(w: int, h: int, y: int, z: int)
    ensures Index(w, h, 0, y, z) + (w - 1) + 1 == Index(w, h, 0, y + 1, z)
    ensures Slot(w, h, Cell(0, y, z)) + (w - 1) + 2 == Slot(w, h, Cell(0, y + 1, z))
  {
    assert (y + 1) * w == y * w + w;
    assert (w + 1) * (1 + (y + 1)) == (w + 1) * (1 + y) + (w + 1);
  }

  /** After the h - 1 rows of slice z, `n += w` reaches the first cell of
      slice z + 1, `buf_no ^= 1` selects the other half of the ring buffer
      and `R[2] = -R[2]` gives the stride of slice z + 1. */
  lemma NextSlice(w: int, h: int, z: int, bufNo: int, R: seq<int>)
    requires bufNo == (z + 1) % 2 && R == [1, w + 1, ZStride(w, h, z)]
    ensures Index(w, h, 0, h - 1, z) + w == Index(w, h, 0, 0, z + 1)
    ensures Xor(bufNo, 1) == (z + 2) % 2 && R[2 := -R[2]] == [1, w + 1, ZStride(w, h, z + 1)]
  {
    assert Xor(0, 1) == 1 && Xor(1, 1) == 0;
    assert (z + 1) * h * w == z * h * w + h * w;
    assert (h - 1) * w + w == h * w;
  }

  /** The slots of the cells of the sweep lie in `[0, 2*(w+1)*(h+1))`. */
  lemma SlotInRange(w: int, h: int, p: int, c: Cell)
    requires InCells(w, h, p, c)
    ensures 0 <= Slot(w, h, c) < 2 * ((w + 1) * (h + 1))
  {
    var parity := (c.z + 1) % 2;
    assert 0 <= (w + 1) * (1 + c.y) <= (w + 1) * (h - 1) by {
      MulMonotone(1 + c.y, h - 1, w + 1);
    }
    assert 0 <= parity * ((w + 1) * (h + 1)) <= (w + 1) * (h + 1);
    assert (w + 1) * (h + 1) == (w + 1) * (h - 1) + 2 * (w + 1);
  }

  /** Two cells of the sweep at most one slice apart share a slot only when
      they are the same cell. */
  lemma SlotInjective(w: int, h: int, p: int, a: Cell, b: Cell)
    requires InCells(w, h, p, a) && InCells(w, h, p, b)
    requires a.z <= b.z + 1 && b.z <= a.z + 1
    requires Slot(w, h, a) == Slot(w, h, b)
    ensures a == b
  {
    SlotDigits(w, h, a);
    SlotDigits(w, h, b);
    DigitsUnique(a.x, (1 + a.y) + (h + 1) * ((a.z + 1) % 2), b.x, (1 + b.y) + (h + 1) * ((b.z + 1) % 2), w + 1);
    DigitsUnique(1 + a.y, (a.z + 1) % 2, 1 + b.y, (b.z + 1) % 2, h + 1);
  }

  /** Mixed-radix digits are unique: x + r*y determines x and y when x < r. */
  lemma DigitsUnique(x1: int, y1: int, x2: int, y2: int, r: int)
    requires 0 <= x1 < r && 0 <= x2 < r
    requires x1 + r * y1 == x2 + r * y2
    ensures x1 == x2 && y1 == y2
  {
    assert r * (y1 - y2) == x2 - x1;
    if y1 > y2 {
      MulMonotone(1, y1 - y2, r);
    } else if y2 > y1 {
      MulMonotone(1, y2 - y1, r);
    }
  }

  lemma SlotDigits(w: int, h: int, c: Cell)
    ensures Slot(w, h, c) == 1 + c.x + (w + 1) * ((1 + c.y) + (h + 1) * ((c.z + 1) % 2))
  {
    if (c.z + 1) % 2 == 1 {
      assert (w + 1) * ((1 + c.y) + (h + 1)) == (w + 1) * (1 + c.y) + (w + 1) * (h + 1);
    }
  }

  // ---------------------------------------------------------------------
  // Faces

  /** The edge of an eligible face is crossed, so the three back neighbours
      that share it are cells of the sweep with a vertex of their own. */
  lemma NeighboursMixed(d: seq<real>, w: int, h: int, p: int, c: Cell, i: nat)
    requires Eligible(d, w, h, p, Face(c, i))
    ensures var u, v := (i + 1) % 3, (i + 2) % 3;
      InCells(w, h, p, Back(c, u)) && MixedCell(d, w, h, Back(c, u)) &&
      InCells(w, h, p, Back(c, v)) && MixedCell(d, w, h, Back(c, v)) &&
      InCells(w, h, p, Back(Back(c, u), v)) && MixedCell(d, w, h, Back(Back(c, u), v))
  {
    if i == 0 {
      NeighboursAlong(d, w, h, p, c, 0, 1, 2, 1);
    } else if i == 1 {
      NeighboursAlong(d, w, h, p, c, 1, 2, 0, 2);
    } else {
      NeighboursAlong(d, w, h, p, c, 2, 0, 1, 4);
    }
  }

  /** `NeighboursMixed` for one axis i, with u, v the two other axes. */
  lemma NeighboursAlong(d: seq<real>, w: int, h: int, p: int, c: Cell, i: nat, u: nat, v: nat, g: nat)
    requires i < 3 && u == (i + 1) % 3 && v == (i + 2) % 3 && g == Pow2(i)
    requires InCells(w, h, p, c) && Crossed(CellMask(d, w, h, c), i) && Coord(c, u) != 0 && Coord(c, v) != 0
    ensures InCells(w, h, p, Back(c, u)) && MixedCell(d, w, h, Back(c, u)) &&
      InCells(w, h, p, Back(c, v)) && MixedCell(d, w, h, Back(c, v)) &&
      InCells(w, h, p, Back(Back(c, u), v)) && MixedCell(d, w, h, Back(Back(c, u), v))
  {
    BackInCells(w, h, p, c, u, v);
    CrossedCorners(d, w, h, c, i, g);
    if i == 0 {
      NeighboursMixedX(d, w, h, c);
    } else if i == 1 {
      NeighboursMixedY(d, w, h, c);
    } else {
      NeighboursMixedZ(d, w, h, c);
    }
  }

  /** Stepping back along two different axes on which c is not at 0 stays
      among the cells of the sweep. */
  lemma BackInCells(w: int, h: int, p: int, c: Cell, u: nat, v: nat)
    requires InCells(w, h, p, c) && u < 3 && v < 3 && u != v && Coord(c, u) != 0 && Coord(c, v) != 0
    ensures InCells(w, h, p, Back(c, u)) && InCells(w, h, p, Back(c, v)) && InCells(w, h, p, Back(Back(c, u), v))
  {
  }

  /** The edge along axis i from corner 0 is crossed: corner 0 and corner
      `1 << i` have different signs. */
  lemma CrossedCorners(d: seq<real>, w: int, h: int, c: Cell, i: nat, g: nat)
    requires i < 3 && g == Pow2(i) && Crossed(CellMask(d, w, h, c), i)
    ensures (Corner(d, w, h, c, 0) < 0.0) != (Corner(d, w, h, c, g) < 0.0)
  {
    CubeEdgeFromZero(i);
    CellMaskBits(d, w, h, c, 0);
    CellMaskBits(d, w, h, c, g);
  }

  lemma NeighboursMixedX(d: seq<real>, w: int, h: int, c: Cell)
    requires (Corner(d, w, h, c, 0) < 0.0) != (Corner(d, w, h, c, 1) < 0.0)
    ensures MixedCell(d, w, h, Back(c, 1)) && MixedCell(d, w, h, Back(c, 2)) &&
            MixedCell(d, w, h, Back(Back(c, 1), 2))
  {
    var cu, cv := Back(c, 1), Back(c, 2);
    var cuv := Back(cu, 2);
    assert Corner(d, w, h, cu, 2) == Corner(d, w, h, c, 0) && Corner(d, w, h, cu, 3) == Corner(d, w, h, c, 1);
    assert Corner(d, w, h, cv, 4) == Corner(d, w, h, c, 0) && Corner(d, w, h, cv, 5) == Corner(d, w, h, c, 1);
    assert Corner(d, w, h, cuv, 6) == Corner(d, w, h, c, 0) && Corner(d, w, h, cuv, 7) == Corner(d, w, h, c, 1);
    SplitCellIsMixed(d, w, h, cu, 2, 3);
    SplitCellIsMixed(d, w, h, cv, 4, 5);
    SplitCellIsMixed(d, w, h, cuv, 6, 7);
  }

  lemma NeighboursMixedY(d: seq<real>, w: int, h: int, c: Cell)
    requires (Corner(d, w, h, c, 0) < 0.0) != (Corner(d, w, h, c, 2) < 0.0)
    ensures MixedCell(d, w, h, Back(c, 2)) && MixedCell(d, w, h, Back(c, 0)) &&
            MixedCell(d, w, h, Back(Back(c, 2), 0))
  {
    var cu, cv := Back(c, 2), Back(c, 0);
    var cuv := Back(cu, 0);
    assert Corner(d, w, h, cu, 4) == Corner(d, w, h, c, 0) && Corner(d, w, h, cu, 6) == Corner(d, w, h, c, 2);
    assert Corner(d, w, h, cv, 1) == Corner(d, w, h, c, 0) && Corner(d, w, h, cv, 3) == Corner(d, w, h, c, 2);
    assert Corner(d, w, h, cuv, 5) == Corner(d, w, h, c, 0) && Corner(d, w, h, cuv, 7) == Corner(d, w, h, c, 2);
    SplitCellIsMixed(d, w, h, cu, 4, 6);
    SplitCellIsMixed(d, w, h, cv, 1, 3);
    SplitCellIsMixed(d, w, h, cuv, 5, 7);
  }

  lemma NeighboursMixedZ(d: seq<real>, w: int, h: int, c: Cell)
    requires (Corner(d, w, h, c, 0) < 0.0) != (Corner(d, w, h, c, 4) < 0.0)
    ensures MixedCell(d, w, h, Back(c, 0)) && MixedCell(d, w, h, Back(c, 1)) &&
            MixedCell(d, w, h, Back(Back(c, 0), 1))
  {
    var cu, cv := Back(c, 0), Back(c, 1);
    var cuv := Back(cu, 1);
    assert Corner(d, w, h, cu, 1) == Corner(d, w, h, c, 0) && Corner(d, w, h, cu, 5) == Corner(d, w, h, c, 4);
    assert Corner(d, w, h, cv, 2) == Corner(d, w, h, c, 0) && Corner(d, w, h, cv, 6) == Corner(d, w, h, c, 4);
    assert Corner(d, w, h, cuv, 3) == Corner(d, w, h, c, 0) && Corner(d, w, h, cuv, 7) == Corner(d, w, h, c, 4);
    SplitCellIsMixed(d, w, h, cu, 1, 5);
    SplitCellIsMixed(d, w, h, cv, 2, 6);
    SplitCellIsMixed(d, w, h, cuv, 3, 7);
  }

  /** `QuadAt` spells out `QuadTriangles` entry by entry. */
  lemma QuadAtMeansQuadTriangles(t: seq<int>, at: int, a: int, b: int, c: int, e: int, flip: bool)
    requires 0 <= at && at + 6 <= |t|
    ensures QuadAt(t, at, a, b, c, e, flip) <==> t[at..at + 6] == QuadTriangles(a, b, c, e, flip)
  {
    if QuadAt(t, at, a, b, c, e, flip) {
      assert t[at..at + 6] == QuadTriangles(a, b, c, e, flip);
    }
    if t[at..at + 6] == QuadTriangles(a, b, c, e, flip) {
      var s := t[at..at + 6];
      assert t[at] == s[0] && t[at + 1] == s[1] && t[at + 2] == s[2];
      assert t[at + 3] == s[3] && t[at + 4] == s[4] && t[at + 5] == s[5];
    }
  }

  /** The winding used when corner 0 is inside is the outside winding with
      the two side neighbours exchanged, so both triangles flip orientation. */
  lemma WindingFlip(a: int, b: int, c: int, e: int)
    ensures QuadTriangles(a, b, c, e, true) == QuadTriangles(a, c, b, e, false)
    ensures QuadTriangles(a, b, c, e, true)[..3] == [a, c, b]
    ensures QuadTriangles(a, b, c, e, false)[..3] == [a, b, c]
  {
  }
}
