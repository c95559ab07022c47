/** `SurfaceNets`: the process-wide edge tables, the ring buffer of vertex
    indices shared by every extraction, and `Run`, which sweeps a density
    grid once and emits one vertex per mixed cell and one quad per crossed
    grid edge away from the boundary. */
module SurfaceNetsExtractor {
  import opened Bits
  import opened DensityGrid
  import opened SurfaceNetsTables
  import opened SurfaceNetsGrid
  import opened SurfaceNetsVertex
  import opened SurfaceNetsSweep

  /** `SurfaceNets.Mesh`: three coordinates per vertex, three indices per triangle. */
  datatype Mesh = Mesh(vertices: seq<seq<real>>, triangles: seq<int>)

  /** The static state of the C# class, held by one object. */
  class SurfaceNets {
    /** `cube_edges`: two corner numbers per cube edge. */
    const cubeEdges: array<int>
    /** `edge_table`: the crossed-edge mask of each corner sign mask. */
    const edgeTable: array<int>
    /** `vertexBuffer`: the vertex index of each cell of the current and the
        previous slice; it only ever grows. */
    var vertexBuffer: array<int>

    ghost predicate Valid()
      reads this, cubeEdges, edgeTable
    {
      cubeEdges.Length == 24 && edgeTable.Length == 256 &&
      vertexBuffer != cubeEdges && vertexBuffer != edgeTable && cubeEdges != edgeTable &&
      cubeEdges[..] == CUBE_EDGES &&
      (forall m {:trigger edgeTable[m]} :: 0 <= m < 256 ==> edgeTable[m] == EdgeTable(m))
    }

    /** The static constructor: allocate the arrays and fill both tables. */
    constructor ()
      ensures Valid() && fresh(vertexBuffer) && vertexBuffer.Length == 4096
    {
      cubeEdges := new int[24];
      edgeTable := new int[256];
      vertexBuffer := new int[4096];
      new;
      InitCubeEdges();
      InitEdgeTable();
    }

    /** `initCubeEdges`: for every corner i and axis bit j, the edge from i to
        its neighbour i ^ j, listed once from its lower corner. */
    method InitCubeEdges()
      requires cubeEdges.Length == 24
      modifies cubeEdges
      ensures cubeEdges[..] == CUBE_EDGES
    {
      var k := 0;
      var i := 0;
      while i < 8
        invariant 0 <= i <= 8 && 0 <= k <= 24
        invariant cubeEdges[..k] == EdgesBefore(i, 0)
      {
        var j := 1;
        ghost var t := 0;
        while j <= 4
          invariant (t == 0 && j == 1) || (t == 1 && j == 2) || (t == 2 && j == 4) || (t == 3 && j == 8)
          invariant 0 <= k <= 24
          invariant cubeEdges[..k] == EdgesBefore(i, t)
        {
          assert Pow2(t) == j;
          k := AddNeighbour(k, i, j, t);
          j := j * 2;
          t := t + 1;
        }
        i := i + 1;
      }
      CubeEdgesGenerated();
      EdgesPrefix(8, 0);
    }

    /** The body of the inner loop of `initCubeEdges`: append the edge from
        corner i to its neighbour i ^ j when i is its lower corner. */
    method AddNeighbour(k: int, i: nat, j: nat, ghost t: nat) returns (k': int)
      requires cubeEdges.Length == 24 && i < 8 && t < 3 && j == Pow2(t)
      requires 0 <= k <= 24 && cubeEdges[..k] == EdgesBefore(i, t)
      modifies cubeEdges
      ensures 0 <= k' <= 24 && cubeEdges[..k'] == EdgesBefore(i, t + 1)
    {
      k' := k;
      var p := Xor(i, j);
      EdgesPrefix(i, t + 1);
      assert EdgesBefore(i, t + 1) == cubeEdges[..k] + NeighbourPair(i, j);
      if i <= p {
        cubeEdges[k'] := i;
        k' := k' + 1;
        cubeEdges[k'] := p;
        k' := k' + 1;
        assert cubeEdges[..k'] == cubeEdges[..k' - 2] + [i, p];
      }
    }

    /** `initEdgeTable`: bit e of entry m is set when the two corners of edge e
        have different bits in m. */
    method InitEdgeTable()
      requires cubeEdges.Length == 24 && edgeTable.Length == 256 && cubeEdges != edgeTable
      requires cubeEdges[..] == CUBE_EDGES
      modifies edgeTable
      ensures forall m :: 0 <= m < 256 ==> edgeTable[m] == EdgeTable(m)
    {
      var i := 0;
      while i < 256
        invariant 0 <= i <= 256
        invariant forall m {:trigger edgeTable[m]} :: 0 <= m < i ==> edgeTable[m] == EdgeTable(m)
      {
        var em := CrossedEdges(i);
        edgeTable[i] := em;
        i := i + 1;
      }
    }

    /** The inner loop of `initEdgeTable` for sign mask i: one bit per edge
        whose two corners have different bits in i. */
    method CrossedEdges(i: nat) returns (em: nat)
      requires cubeEdges.Length == 24 && cubeEdges[..] == CUBE_EDGES
      ensures em == EdgeTable(i)
    {
      em := 0;
      var j := 0;
      ghost var e := 0;
      while j < 24
        invariant 0 <= e <= 12 && j == 2 * e
        invariant em == EdgeMaskPrefix(i, e)
      {
        em := AddEdgeBit(i, j, e, em);
        j := j + 2;
        e := e + 1;
      }
    }

    /** One round of the inner loop of `initEdgeTable`: or in bit j/2 when the
        corners `cube_edges[j]` and `cube_edges[j+1]` differ in i. */
    method AddEdgeBit(i: nat, j: nat, ghost e: nat, em: nat) returns (em': nat)
      requires cubeEdges.Length == 24 && cubeEdges[..] == CUBE_EDGES
      requires e < 12 && j == 2 * e && em == EdgeMaskPrefix(i, e)
      ensures em' == EdgeMaskPrefix(i, e + 1)
    {
      assert cubeEdges[j] == CUBE_EDGES[2 * e] && cubeEdges[j + 1] == CUBE_EDGES[2 * e + 1];
      var a := Boolean(And(i, Pow2(cubeEdges[j])));
      var b := Boolean(And(i, Pow2(cubeEdges[j + 1])));
      EdgeMaskStep(i, e, em);
      assert j / 2 == e;
      em' := Or(em, if a != b then Pow2(j / 2) else 0);
    }

    /** The three nested corner loops of `Run`: load the eight densities of
        cell c into `grid` and build the mask of negative corners. This is
        the k loop; each of its steps advances `idx` by `w*(h-2)` after the
        j loop. */
    static method GatherCorners(data: array<real>, w: int, h: int, p: int, c: Cell, n: int, grid: array<real>)
      returns (mask: nat)
      requires InCells(w, h, p, c) && w * h * p <= data.Length
      requires grid.Length == 8 && grid != data && n == Index(w, h, c.x, c.y, c.z)
      modifies grid
      ensures grid[..] == CellGrid(data[..], w, h, c)
      ensures mask == CellMask(data[..], w, h, c)
    {
      mask := 0;
      var g := 0;
      var idx := n;
      var k := 0;
      while k < 2
        invariant 0 <= k <= 2 && g == 4 * k
        invariant idx == n + k * (w * h)
        invariant grid[..g] == CellGrid(data[..], w, h, c)[..g] && mask == SignMask(grid[..g])
      {
        idx, g, mask := GatherPlane(data, w, h, p, c, n, grid, k, idx, g, mask);
        assert w * (h - 2) + 2 * w == w * h;
        assert (k + 1) * (w * h) == k * (w * h) + w * h;
        k := k + 1;
        idx := idx + w * (h - 2);
      }
      assert grid[..] == grid[..8];
    }

    /** The j loop of the corner gather for plane k: two rows, each followed
        by `idx += w - 2`. */
    static method GatherPlane(data: array<real>, w: int, h: int, p: int, c: Cell, n: int, grid: array<real>,
                              k: int, idx: int, g: int, mask: nat)
      returns (idx': int, g': int, mask': nat)
      requires InCells(w, h, p, c) && w * h * p <= data.Length
      requires grid.Length == 8 && grid != data && n == Index(w, h, c.x, c.y, c.z)
      requires 0 <= k < 2 && g == 4 * k && idx == n + k * (w * h)
      requires grid[..g] == CellGrid(data[..], w, h, c)[..g] && mask == SignMask(grid[..g])
      modifies grid
      ensures g' == g + 4 && idx' == idx + 2 * w
      ensures grid[..g'] == CellGrid(data[..], w, h, c)[..g'] && mask' == SignMask(grid[..g'])
    {
      idx', g', mask' := idx, g, mask;
      var j := 0;
      while j < 2
        invariant 0 <= j <= 2 && g' == 4 * k + 2 * j
        invariant idx' == n + k * (w * h) + j * w
        invariant grid[..g'] == CellGrid(data[..], w, h, c)[..g'] && mask' == SignMask(grid[..g'])
      {
        idx', g', mask' := GatherRow(data, w, h, p, c, n, grid, j, k, idx', g', mask');
        assert (j + 1) * w == j * w + w;
        j := j + 1;
        idx' := idx' + w - 2;
      }
    }

    /** The i loop of the corner gather for row j of plane k: two corners,
        each with `++g, ++idx`. */
    static method GatherRow(data: array<real>, w: int, h: int, p: int, c: Cell, n: int, grid: array<real>,
                            j: int, k: int, idx: int, g: int, mask: nat)
      returns (idx': int, g': int, mask': nat)
      requires InCells(w, h, p, c) && w * h * p <= data.Length
      requires grid.Length == 8 && grid != data && n == Index(w, h, c.x, c.y, c.z)
      requires 0 <= j < 2 && 0 <= k < 2 && g == 4 * k + 2 * j && idx == n + k * (w * h) + j * w
      requires grid[..g] == CellGrid(data[..], w, h, c)[..g] && mask == SignMask(grid[..g])
      modifies grid
      ensures g' == g + 2 && idx' == idx + 2
      ensures grid[..g'] == CellGrid(data[..], w, h, c)[..g'] && mask' == SignMask(grid[..g'])
    {
      idx', g', mask' := idx, g, mask;
      var i := 0;
      while i < 2
        invariant 0 <= i <= 2 && g' == 4 * k + 2 * j + i
        invariant idx' == n + k * (w * h) + j * w + i
        invariant grid[..g'] == CellGrid(data[..], w, h, c)[..g'] && mask' == SignMask(grid[..g'])
      {
        mask' := LoadCorner(data, w, h, p, c, n, grid, i, j, k, idx', g', mask');
        g' := g' + 1;
        idx' := idx' + 1;
        i := i + 1;
      }
    }

    /** The body of the corner loops: `grid[g] = data[idx]`, and or in bit g of
        the mask when that density is negative. */
    static method LoadCorner(data: array<real>, w: int, h: int, p: int, c: Cell, n: int, grid: array<real>,
                             i: int, j: int, k: int, idx: int, g: int, mask: nat)
      returns (mask': nat)
      requires InCells(w, h, p, c) && w * h * p <= data.Length
      requires grid.Length == 8 && grid != data && n == Index(w, h, c.x, c.y, c.z)
      requires 0 <= i < 2 && 0 <= j < 2 && 0 <= k < 2 && g == 4 * k + 2 * j + i
      requires idx == n + k * (w * h) + j * w + i
      requires grid[..g] == CellGrid(data[..], w, h, c)[..g] && mask == SignMask(grid[..g])
      modifies grid
      ensures grid[..g + 1] == CellGrid(data[..], w, h, c)[..g + 1] && mask' == SignMask(grid[..g + 1])
    {
      ghost var cg := CellGrid(data[..], w, h, c);
      CornerAt(data[..], w, h, p, c, i, j, k);
      var v := data[idx];
      ghost var before := grid[..g];
      grid[g] := v;
      assert grid[..g + 1] == before + [v];
      assert cg[..g + 1] == cg[..g] + [cg[g]];
      SignMaskSnoc(before, v);
      mask' := Or(mask, if v < 0.0 then Pow2(g) else 0);
    }

    /** The edge loop of `Run`: count the crossed edges and add up their
        crossing points, skipping degenerate ones after counting them. */
    method SumCrossings(grid: array<real>, edgeMask: nat) returns (v: seq<real>, eCount: nat)
      requires cubeEdges.Length == 24 && cubeEdges[..] == CUBE_EDGES && grid.Length == 8
      ensures eCount == PopCount(edgeMask, EDGES)
      ensures v == EdgeSum(grid[..], edgeMask, EDGES)
    {
      v := [0.0, 0.0, 0.0];
      eCount := 0;
      var i := 0;
      while i < 12
        invariant 0 <= i <= 12
        invariant eCount == PopCount(edgeMask, i)
        invariant v == EdgeSum(grid[..], edgeMask, i)
      {
        v, eCount := AddEdge(grid, edgeMask, i, v, eCount);
        i := i + 1;
      }
    }

    /** One round of the edge loop of `Run`: when edge i is in the mask, count
        it, and add its crossing point unless its two densities are within
        `EPSILON` of each other. */
    method AddEdge(grid: array<real>, edgeMask: nat, i: nat, v: seq<real>, eCount: nat)
      returns (v': seq<real>, eCount': nat)
      requires cubeEdges.Length == 24 && cubeEdges[..] == CUBE_EDGES && grid.Length == 8 && i < 12
      requires eCount == PopCount(edgeMask, i) && v == EdgeSum(grid[..], edgeMask, i)
      ensures eCount' == PopCount(edgeMask, i + 1)
      ensures v' == EdgeSum(grid[..], edgeMask, i + 1)
    {
      v', eCount' := v, eCount;
      AndPow2(edgeMask, i);
      EdgeSumStep(grid[..], edgeMask, i, v);
      if Boolean(And(edgeMask, Pow2(i))) {
        eCount' := eCount + 1;
        var firstEdgeIndex := 2 * i;
        var secondEdgeIndex := firstEdgeIndex + 1;
        assert cubeEdges[firstEdgeIndex] == CUBE_EDGES[2 * i];
        assert cubeEdges[secondEdgeIndex] == CUBE_EDGES[2 * i + 1];
        var e0 := cubeEdges[firstEdgeIndex];
        var e1 := cubeEdges[secondEdgeIndex];
        var g0 := grid[e0];
        var g1 := grid[e1];
        var t := g0 - g1;
        if Abs(t) > EPSILON {
          t := g0 / t;
          v' := AddCrossing(v, e0, e1, t);
        }
      }
    }

    /** The innermost loop of `Run`: add the crossing point at fraction t of
        edge (e0, e1), one coordinate at a time. */
    static method AddCrossing(v0: seq<real>, e0: nat, e1: nat, t: real) returns (v: seq<real>)
      requires |v0| == 3
      ensures v == AddOffsets(v0, e0, e1, t, 3)
    {
      v := v0;
      var j := 0;
      while j < 3
        invariant 0 <= j <= 3
        invariant v == AddOffsets(v0, e0, e1, t, j)
      {
        var k := Pow2(j);
        var a := And(e0, k);
        var b := And(e1, k);
        AddOffsetsStep(v0, e0, e1, t, j, v);
        if a != b {
          v := v[j := v[j] + (if Boolean(a) then 1.0 - t else t)];
        } else {
          v := v[j := v[j] + (if Boolean(a) then 1.0 else 0.0)];
        }
        j := j + 1;
      }
    }

    /** The face loop of `Run` for mixed cell c, whose vertex index is already
        in slot m: one quad for every crossed edge leaving corner 0 whose two
        orthogonal coordinates are not on the low boundary. */
    method EmitFaces(ghost d: seq<real>, w: int, h: int, p: int, c: Cell, m: int, R: seq<int>,
                     mask: nat, edgeMask: nat, ghost vs: seq<Cell>, triangles: seq<int>, ghost faces: seq<Face>)
      returns (tris: seq<int>, ghost fs: seq<Face>)
      requires InCells(w, h, p, c)
      requires mask == CellMask(d, w, h, c) && edgeMask == EdgeTable(mask)
      requires R == [1, w + 1, ZStride(w, h, c.z)] && m == Slot(w, h, c)
      requires |vs| > 0 && vs[|vs| - 1] == c && 0 <= m < vertexBuffer.Length && vertexBuffer[m] == |vs| - 1
      requires BufferUpTo(d, w, h, p, vertexBuffer[..], vs, Next(c))
      requires FacesUpTo(d, w, h, p, vs, triangles, faces, Face(c, 0))
      ensures FacesUpTo(d, w, h, p, vs, tris, fs, Face(Next(c), 0))
    {
      tris, fs := triangles, faces;
      var location := [c.x, c.y, c.z];
      var i := 0;
      while i < 3
        invariant 0 <= i <= 3
        invariant FacesUpTo(d, w, h, p, vs, tris, fs, Face(c, i))
      {
        tris, fs := EmitFace(d, w, h, p, c, m, R, mask, edgeMask, location, i, vs, tris, fs);
        i := i + 1;
      }
      FacesOfCellDone(d, w, h, p, vs, tris, fs, c);
    }

    /** One round of the face loop: the quad around the edge of cell c along
        axis i, when that edge is crossed and c is off the low boundary on the
        two other axes. */
    method EmitFace(ghost d: seq<real>, w: int, h: int, p: int, c: Cell, m: int, R: seq<int>,
                    mask: nat, edgeMask: nat, location: seq<int>, i: nat,
                    ghost vs: seq<Cell>, triangles: seq<int>, ghost faces: seq<Face>)
      returns (tris: seq<int>, ghost fs: seq<Face>)
      requires InCells(w, h, p, c) && i < 3 && location == [c.x, c.y, c.z]
      requires mask == CellMask(d, w, h, c) && edgeMask == EdgeTable(mask)
      requires R == [1, w + 1, ZStride(w, h, c.z)] && m == Slot(w, h, c)
      requires |vs| > 0 && vs[|vs| - 1] == c && 0 <= m < vertexBuffer.Length && vertexBuffer[m] == |vs| - 1
      requires BufferUpTo(d, w, h, p, vertexBuffer[..], vs, Next(c))
      requires FacesUpTo(d, w, h, p, vs, triangles, faces, Face(c, i))
      ensures FacesUpTo(d, w, h, p, vs, tris, fs, Face(c, i + 1))
    {
      ghost var vb := vertexBuffer[..];
      var iu := (i + 1) % 3;
      var iv := (i + 2) % 3;
      EligibleTest(d, w, h, p, c, i, edgeMask);
      assert location[iu] == Coord(c, iu) && location[iv] == Coord(c, iv);
      if Boolean(And(edgeMask, Pow2(i))) && location[iu] != 0 && location[iv] != 0 {
        tris, fs := EmitQuad(d, w, h, p, c, m, R, mask, i, vs, triangles, faces);
      } else {
        SkipFace(d, w, h, p, vs, triangles, faces, Face(c, i));
        tris, fs := triangles, faces;
      }
    }

    /** The body of the face loop for an eligible face: read the vertex
        indices of c and of its back neighbours along u, v and both, and
        append the quad, flipped when corner 0 is inside. */
    method EmitQuad(ghost d: seq<real>, w: int, h: int, p: int, c: Cell, m: int, R: seq<int>,
                    mask: nat, i: nat, ghost vs: seq<Cell>, triangles: seq<int>, ghost faces: seq<Face>)
      returns (tris: seq<int>, ghost fs: seq<Face>)
      requires Eligible(d, w, h, p, Face(c, i))
      requires mask == CellMask(d, w, h, c)
      requires R == [1, w + 1, ZStride(w, h, c.z)] && m == Slot(w, h, c)
      requires |vs| > 0 && vs[|vs| - 1] == c && 0 <= m < vertexBuffer.Length && vertexBuffer[m] == |vs| - 1
      requires BufferUpTo(d, w, h, p, vertexBuffer[..], vs, Next(c))
      requires FacesUpTo(d, w, h, p, vs, triangles, faces, Face(c, i))
      ensures FacesUpTo(d, w, h, p, vs, tris, fs, Face(c, i + 1))
      ensures fs == faces + [Face(c, i)] && |tris| == |triangles| + 6 && tris[..|triangles|] == triangles
    {
      ghost var vb := vertexBuffer[..];
      var iu := (i + 1) % 3;
      var iv := (i + 2) % 3;
      FaceSlots(d, w, h, p, vb, vs, c, i);
      var du := R[iu];
      var dv := R[iv];
      assert du == Stride(w, h, c.z, iu) && dv == Stride(w, h, c.z, iv);
      var indexM := vertexBuffer[m];
      var indexMMinusDU := vertexBuffer[m - du];
      var indexMMinusDV := vertexBuffer[m - dv];
      var indexMMinusDUMinusDV := vertexBuffer[m - du - dv];
      AndPow2(mask, 0);
      var flip := Boolean(And(mask, 1));
      AddFaceQuad(d, w, h, p, vb, vs, triangles, faces, c, i, du, dv,
                  indexM, indexMMinusDU, indexMMinusDV, indexMMinusDUMinusDV, flip);
      tris := triangles + QuadTriangles(indexM, indexMMinusDU, indexMMinusDV, indexMMinusDUMinusDV, flip);
      fs := faces + [Face(c, i)];
    }

    /** The loop that turns the scaled sum into the vertex: add the cell's
        coordinates, component by component. */
    static method Translate(location: seq<int>, s: real, sum: seq<real>) returns (v: seq<real>)
      requires |location| == 3 && |sum| == 3
      ensures v == AtCorner(location, Scaled(sum, s))
    {
      v := sum;
      var i := 0;
      while i < 3
        invariant 0 <= i <= 3 && |v| == 3
        invariant forall q :: 0 <= q < 3 ==> v[q] == if q < i then location[q] as real + s * sum[q] else sum[q]
      {
        v := v[i := location[i] as real + s * v[i]];
        i := i + 1;
      }
      var r := AtCorner(location, Scaled(sum, s));
      forall q | 0 <= q < 3
        ensures v[q] == r[q]
      {
        AtCornerComponent(location, Scaled(sum, s), q);
      }
    }

    /** The body of the innermost sweep loop of `Run`, for cell c. */
    method ProcessCell(data: array<real>, w: int, h: int, p: int, c: Cell, n: int, m: int, R: seq<int>,
                       grid: array<real>, vertices: seq<seq<real>>, triangles: seq<int>,
                       ghost vs: seq<Cell>, ghost faces: seq<Face>)
      returns (verts: seq<seq<real>>, tris: seq<int>, ghost vs': seq<Cell>, ghost fs: seq<Face>)
      requires Valid() && InCells(w, h, p, c) && w * h * p <= data.Length
      requires grid.Length == 8 && grid != data
      requires n == Index(w, h, c.x, c.y, c.z) && m == Slot(w, h, c)
      requires R == [1, w + 1, ZStride(w, h, c.z)]
      requires 2 * ((w + 1) * (h + 1)) <= vertexBuffer.Length
      requires Swept(data[..], w, h, p, vertexBuffer[..], vertices, triangles, vs, faces, c)
      modifies vertexBuffer, grid
      ensures Valid()
      ensures Swept(data[..], w, h, p, vertexBuffer[..], verts, tris, vs', fs, Next(c))
    {
      ghost var d := data[..];
      ghost var vb := vertexBuffer[..];
      var mask := GatherCorners(data, w, h, p, c, n, grid);
      assert vertexBuffer[..] == vb;
      CellMaskBits(d, w, h, c, 0);
      if mask == 0 || mask == 255 {
        SkipCell(d, w, h, p, vb, vertices, triangles, vs, faces, c);
        return vertices, triangles, vs, faces;
      }
      var edgeMask := edgeTable[mask];
      var sum, eCount := SumCrossings(grid, edgeMask);
      MixedHasCrossing(mask);
      var s := 1.0 / (eCount as real);
      var location := [c.x, c.y, c.z];
      VertexFromSums(d, w, h, c, sum, eCount, s);
      var v := Translate(location, s, sum);
      SlotInRange(w, h, p, c);
      vertexBuffer[m] := |vertices|;
      AddVertex(d, w, h, p, vb, vertexBuffer[..], vertices, v, triangles, vs, faces, c);
      verts, vs' := vertices + [v], vs + [c];
      tris, fs := EmitFaces(d, w, h, p, c, m, R, mask, edgeMask, vs', triangles, faces);
    }

    /** One step of the x loop of `Run`: process cell (x, y, z), whose index
        and slot are those of the row start moved by x. */
    method SweepCell(data: array<real>, w: int, h: int, p: int, x: int, y: int, z: int, n: int, m: int, R: seq<int>,
                     grid: array<real>, vertices: seq<seq<real>>, triangles: seq<int>,
                     ghost vs: seq<Cell>, ghost faces: seq<Face>)
      returns (verts: seq<seq<real>>, tris: seq<int>, ghost vs': seq<Cell>, ghost fs: seq<Face>)
      requires Valid() && 0 <= x < w - 1 && 0 <= y < h - 1 && 0 <= z < p - 1 && w * h * p <= data.Length
      requires grid.Length == 8 && grid != data
      requires n == Index(w, h, 0, y, z) + x && m == Slot(w, h, Cell(0, y, z)) + x
      requires R == [1, w + 1, ZStride(w, h, z)]
      requires 2 * ((w + 1) * (h + 1)) <= vertexBuffer.Length
      requires Swept(data[..], w, h, p, vertexBuffer[..], vertices, triangles, vs, faces, Cell(x, y, z))
      modifies vertexBuffer, grid
      ensures Valid()
      ensures Swept(data[..], w, h, p, vertexBuffer[..], verts, tris, vs', fs, Cell(x + 1, y, z))
    {
      var c := Cell(x, y, z);
      IndexShift(w, h, 0, y, z, x, 0, 0);
      assert n == Index(w, h, x, y, z) && m == Slot(w, h, c);
      verts, tris, vs', fs := ProcessCell(data, w, h, p, c, n, m, R, grid, vertices, triangles, vs, faces);
      assert Next(c) == Cell(x + 1, y, z);
    }

    /** The x loop of `Run` over row y of slice z; `n` and `m` advance by one
        per cell. */
    method SweepRow(data: array<real>, w: int, h: int, p: int, y: int, z: int, n: int, m: int, R: seq<int>,
                    grid: array<real>, vertices: seq<seq<real>>, triangles: seq<int>,
                    ghost vs: seq<Cell>, ghost faces: seq<Face>)
      returns (n': int, m': int, verts: seq<seq<real>>, tris: seq<int>, ghost vs': seq<Cell>, ghost fs: seq<Face>)
      requires Valid() && 0 <= y < h - 1 && 0 <= z < p - 1 && (w < 2 || w * h * p <= data.Length)
      requires grid.Length == 8 && grid != data
      requires 2 <= w ==> n == Index(w, h, 0, y, z) && m == Slot(w, h, Cell(0, y, z))
      requires R == [1, w + 1, ZStride(w, h, z)]
      requires 2 * ((w + 1) * (h + 1)) <= vertexBuffer.Length
      requires Swept(data[..], w, h, p, vertexBuffer[..], vertices, triangles, vs, faces, Cell(0, y, z))
      modifies vertexBuffer, grid
      ensures Valid()
      ensures n' == n + (if 2 <= w then w - 1 else 0) && m' == m + (if 2 <= w then w - 1 else 0)
      ensures Swept(data[..], w, h, p, vertexBuffer[..], verts, tris, vs', fs, Cell(0, y + 1, z))
    {
      n', m', verts, tris, vs', fs := n, m, vertices, triangles, vs, faces;
      var x := 0;
      while x < w - 1
        invariant 0 <= x && (x <= w - 1 || x == 0)
        invariant Valid()
        invariant n' == n + x && m' == m + x
        invariant Swept(data[..], w, h, p, vertexBuffer[..], verts, tris, vs', fs, Cell(x, y, z))
      {
        verts, tris, vs', fs := SweepCell(data, w, h, p, x, y, z, n', m', R, grid, verts, tris, vs', fs);
        x := x + 1;
        n' := n' + 1;
        m' := m' + 1;
      }
      RowDone(w, h, p, x, y, z);
      SweptTransfer(data[..], w, h, p, vertexBuffer[..], verts, tris, vs', fs, Cell(x, y, z), Cell(0, y + 1, z));
    }

    /** The y loop of `Run` over slice z: `m` starts at the first cell of the
        half of the ring buffer that `bufNo` selects and skips the two margin
        slots after each row. */
    method SweepSlice(data: array<real>, w: int, h: int, p: int, z: int, n: int, bufNo: int, R: seq<int>,
                      grid: array<real>, vertices: seq<seq<real>>, triangles: seq<int>,
                      ghost vs: seq<Cell>, ghost faces: seq<Face>)
      returns (n': int, verts: seq<seq<real>>, tris: seq<int>, ghost vs': seq<Cell>, ghost fs: seq<Face>)
      requires Valid() && 0 <= z < p - 1 && (w < 2 || h < 2 || w * h * p <= data.Length)
      requires grid.Length == 8 && grid != data
      requires 2 <= w && 2 <= h ==> n == Index(w, h, 0, 0, z)
      requires bufNo == (z + 1) % 2 && R == [1, w + 1, ZStride(w, h, z)]
      requires 2 * ((w + 1) * (h + 1)) <= vertexBuffer.Length
      requires Swept(data[..], w, h, p, vertexBuffer[..], vertices, triangles, vs, faces, Cell(0, 0, z))
      modifies vertexBuffer, grid
      ensures Valid()
      ensures 2 <= w && 2 <= h ==> n' == Index(w, h, 0, h - 1, z)
      ensures Swept(data[..], w, h, p, vertexBuffer[..], verts, tris, vs', fs, Cell(0, 0, z + 1))
    {
      n', verts, tris, vs', fs := n, vertices, triangles, vs, faces;
      var m := 1 + (w + 1) * (1 + bufNo * (h + 1));
      SlotOfRowStart(w, h, z, bufNo);
      var y := 0;
      while y < h - 1
        invariant 0 <= y && (y <= h - 1 || y == 0)
        invariant Valid()
        invariant 2 <= w && 2 <= h ==> n' == Index(w, h, 0, y, z) && m == Slot(w, h, Cell(0, y, z))
        invariant Swept(data[..], w, h, p, vertexBuffer[..], verts, tris, vs', fs, Cell(0, y, z))
      {
        n', m, verts, tris, vs', fs := SweepRow(data, w, h, p, y, z, n', m, R, grid, verts, tris, vs', fs);
        NextRow(w, h, y, z);
        y := y + 1;
        n' := n' + 1;
        m := m + 2;
      }
      SliceDone(w, h, p, y, z);
      SweptTransfer(data[..], w, h, p, vertexBuffer[..], verts, tris, vs', fs, Cell(0, y, z), Cell(0, 0, z + 1));
    }

    /** `Run`: sweep the cells of a w×h×p grid slice by slice, row by row. */
    method Run(data: array<real>, w: int, h: int, p: int) returns (mesh: Mesh, ghost cells: seq<Cell>, ghost faces: seq<Face>)
      requires Valid()
      requires w < 2 || h < 2 || p < 2 || w * h * p <= data.Length
      modifies this, vertexBuffer
      ensures Valid()
      ensures vertexBuffer.Length ==
        if 2 * ((w + 1) * (h + 1)) > old(vertexBuffer.Length) then 2 * ((w + 1) * (h + 1)) else old(vertexBuffer.Length)
      ensures AllMixedCells(data[..], w, h, p, cells) && Positions(data[..], w, h, mesh.vertices, cells)
      ensures AllFaces(data[..], w, h, p, cells, mesh.triangles, faces)
    {
      var R := [1, w + 1, (w + 1) * (h + 1)];
      var grid := new real[8];
      var bufNo := 1;
      if R[2] * 2 > vertexBuffer.Length {
        vertexBuffer := new int[R[2] * 2];
      }
      ghost var vb := vertexBuffer;
      var vertices: seq<seq<real>> := [];
      var triangles: seq<int> := [];
      cells, faces := [], [];
      var n := 0;
      var z := 0;
      while z < p - 1
        invariant 0 <= z && (z <= p - 1 || z == 0)
        invariant vertexBuffer == vb && Valid() && fresh(grid) && grid.Length == 8
        invariant 2 <= w && 2 <= h ==> n == Index(w, h, 0, 0, z)
        invariant bufNo == (z + 1) % 2 && R == [1, w + 1, ZStride(w, h, z)]
        invariant Swept(data[..], w, h, p, vertexBuffer[..], vertices, triangles, cells, faces, Cell(0, 0, z))
      {
        n, vertices, triangles, cells, faces := SweepSlice(data, w, h, p, z, n, bufNo, R, grid, vertices, triangles, cells, faces);
        NextSlice(w, h, z, bufNo, R);
        z := z + 1;
        n := n + w;
        bufNo := Xor(bufNo, 1);
        R := R[2 := -R[2]];
      }
      SweepDone(data[..], w, h, p, vertexBuffer[..], vertices, triangles, cells, faces, z);
      mesh := Mesh(vertices, triangles);
    }
  }

  /** Running the extractor twice on the same grid gives the same mesh: the
      postcondition of `Run` leaves exactly one possible result. */
  lemma RunDeterministic(d: seq<real>, w: int, h: int, p: int, m: Mesh, cells: seq<Cell>, faces: seq<Face>,
                         m': Mesh, cells': seq<Cell>, faces': seq<Face>)
    requires AllMixedCells(d, w, h, p, cells) && Positions(d, w, h, m.vertices, cells)
    requires AllFaces(d, w, h, p, cells, m.triangles, faces)
    requires AllMixedCells(d, w, h, p, cells') && Positions(d, w, h, m'.vertices, cells')
    requires AllFaces(d, w, h, p, cells', m'.triangles, faces')
    ensures m == m' && cells == cells' && faces == faces'
  {
    MeshDetermined(d, w, h, p, cells, m.vertices, m.triangles, faces, cells', m'.vertices, m'.triangles, faces');
  }

  /** The triangle list of a mesh `Run` returns holds whole triangles, and
      every index names a vertex of the mesh. */
  lemma MeshIndicesValid(d: seq<real>, w: int, h: int, p: int, m: Mesh, cells: seq<Cell>, faces: seq<Face>)
    requires |m.vertices| == |cells|
    requires AllFaces(d, w, h, p, cells, m.triangles, faces)
    ensures |m.triangles| % 3 == 0 && |m.triangles| == 6 * |faces|
    ensures forall k :: 0 <= k < |m.triangles| ==> 0 <= m.triangles[k] < |m.vertices|
  {
    forall k | 0 <= k < |m.triangles|
      ensures 0 <= m.triangles[k] < |m.vertices|
    {
      TrianglesInRange(d, w, h, p, cells, m.triangles, faces, k);
    }
  }

  /** Faces are emitted only at cells off the boundary, but their quads reach
      back one cell: an x-face of a cell with y == 1 uses the vertex of the
      cell below it, whose y is 0. */
  lemma MarginVertexInQuad(d: seq<real>, w: int, h: int, p: int, m: Mesh, cells: seq<Cell>, faces: seq<Face>, q: int)
    requires AllFaces(d, w, h, p, cells, m.triangles, faces)
    requires 0 <= q < |faces| && faces[q].axis == 0 && faces[q].cell.y == 1
    ensures 0 <= m.triangles[6 * q + 1] < |cells| && 0 <= m.triangles[6 * q + 2] < |cells|
    ensures cells[m.triangles[6 * q + 1]].y == 0 || cells[m.triangles[6 * q + 2]].y == 0
  {
    var f, t := faces[q], m.triangles;
    assert QuadOK(d, w, h, cells, t, q, f);
    assert (f.axis + 1) % 3 == 1;
    var b := if Bit(CellMask(d, w, h, f.cell), 0) then t[6 * q + 2] else t[6 * q + 1];
    assert 0 <= b < |cells| && cells[b] == Back(f.cell, 1);
  }
}
