/** The state of one `SurfaceNets.Run` sweep as it moves from cell to cell,
    what it is once the sweep is over, and the step lemmas that carry the
    state across one cell, one row and one slice. */
module SurfaceNetsSweep {
  import opened Bits
  import opened SurfaceNetsTables
  import opened SurfaceNetsGrid
  import opened SurfaceNetsVertex

  /** The cell after `c` in its row. */
  function Next(c: Cell): Cell
  {
    c.(x := c.x + 1)
  }

  /** `verts[k]` is the position of the vertex of cell `vs[k]`. */
  ghost predicate Positions(d: seq<real>, w: int, h: int, verts: seq<seq<real>>, vs: seq<Cell>)
  {
    |verts| == |vs| &&
    forall k :: 0 <= k < |vs| ==> MixedCell(d, w, h, vs[k]) && verts[k] == VertexPosition(d, w, h, vs[k])
  }

  /** Everything `Run` has built when the sweep reaches cell `cur`: the
      vertices and quads of the cells before it, and the ring buffer. */
  ghost predicate Swept(d: seq<real>, w: int, h: int, p: int, vb: seq<int>, verts: seq<seq<real>>,
                        tris: seq<int>, vs: seq<Cell>, faces: seq<Face>, cur: Cell)
  {
    VerticesUpTo(d, w, h, p, vs, cur) && Positions(d, w, h, verts, vs) &&
    FacesUpTo(d, w, h, p, vs, tris, faces, Face(cur, 0)) && BufferUpTo(d, w, h, p, vb, vs, cur)
  }

  /** `vs` lists exactly the mixed cells of the grid, in sweep order and
      without repetition. */
  ghost predicate AllMixedCells(d: seq<real>, w: int, h: int, p: int, vs: seq<Cell>)
  {
    (forall k :: 0 <= k < |vs| ==> InCells(w, h, p, vs[k]) && MixedCell(d, w, h, vs[k])) &&
    (forall c :: InCells(w, h, p, c) && MixedCell(d, w, h, c) ==> c in vs) &&
    (forall k, l :: 0 <= k < l < |vs| ==> Before(vs[k], vs[l]))
  }

  /** `faces` lists exactly the eligible faces of the grid, in sweep order,
      and `tris` holds one quad (two triangles) per face. */
  ghost predicate AllFaces(d: seq<real>, w: int, h: int, p: int, vs: seq<Cell>, tris: seq<int>, faces: seq<Face>)
  {
    |tris| == 6 * |faces| &&
    (forall q :: 0 <= q < |faces| ==> Eligible(d, w, h, p, faces[q]) && QuadOK(d, w, h, vs, tris, q, faces[q])) &&
    (forall f :: Eligible(d, w, h, p, f) ==> f in faces) &&
    (forall q, r :: 0 <= q < r < |faces| ==> FaceBefore(faces[q], faces[r]))
  }

  /** Two cursors with the same cells of the sweep before them. */
  ghost predicate SameBefore(w: int, h: int, p: int, a: Cell, b: Cell)
  {
    forall c :: InCells(w, h, p, c) ==> (Before(c, a) <==> Before(c, b))
  }

  // ---------------------------------------------------------------------
  // Moving the cursor

  /** The end of a row is the start of the next one. */
  lemma RowDone(w: int, h: int, p: int, x: int, y: int, z: int)
    requires x >= w - 1
    ensures SameBefore(w, h, p, Cell(x, y, z), Cell(0, y + 1, z))
  {
  }

  /** The end of a slice is the start of the next one. */
  lemma SliceDone(w: int, h: int, p: int, y: int, z: int)
    requires y >= h - 1
    ensures SameBefore(w, h, p, Cell(0, y, z), Cell(0, 0, z + 1))
  {
  }

  lemma FacesTransfer(d: seq<real>, w: int, h: int, p: int, vs: seq<Cell>, tris: seq<int>, faces: seq<Face>, a: Face, b: Face)
    requires FacesUpTo(d, w, h, p, vs, tris, faces, a)
    requires forall f :: Eligible(d, w, h, p, f) ==> (FaceBefore(f, a) <==> FaceBefore(f, b))
    ensures FacesUpTo(d, w, h, p, vs, tris, faces, b)
  {
  }

  lemma SweptTransfer(d: seq<real>, w: int, h: int, p: int, vb: seq<int>, verts: seq<seq<real>>,
                      tris: seq<int>, vs: seq<Cell>, faces: seq<Face>, a: Cell, b: Cell)
    requires Swept(d, w, h, p, vb, verts, tris, vs, faces, a)
    requires SameBefore(w, h, p, a, b) && a.z <= b.z
    ensures Swept(d, w, h, p, vb, verts, tris, vs, faces, b)
  {
    forall f | Eligible(d, w, h, p, f)
      ensures FaceBefore(f, Face(a, 0)) <==> FaceBefore(f, Face(b, 0))
    {
      assert InCells(w, h, p, f.cell);
    }
    FacesTransfer(d, w, h, p, vs, tris, faces, Face(a, 0), Face(b, 0));
  }

  /** Once the cursor is past the last slice the sweep has produced exactly
      the mixed cells and the eligible faces of the grid. */
  lemma SweepDone(d: seq<real>, w: int, h: int, p: int, vb: seq<int>, verts: seq<seq<real>>,
                  tris: seq<int>, vs: seq<Cell>, faces: seq<Face>, z: int)
    requires Swept(d, w, h, p, vb, verts, tris, vs, faces, Cell(0, 0, z)) && z >= p - 1
    ensures AllMixedCells(d, w, h, p, vs) && Positions(d, w, h, verts, vs)
    ensures AllFaces(d, w, h, p, vs, tris, faces)
  {
    forall f | Eligible(d, w, h, p, f)
      ensures FaceBefore(f, Face(Cell(0, 0, z), 0))
    {
      assert InCells(w, h, p, f.cell);
    }
  }

  // ---------------------------------------------------------------------
  // One cell

  /** A face is only ever built at a mixed cell. */
  lemma FaceNeedsMixed(d: seq<real>, w: int, h: int, p: int, f: Face)
    requires Eligible(d, w, h, p, f)
    ensures MixedCell(d, w, h, f.cell)
  {
    var m := CellMask(d, w, h, f.cell);
    CellMaskBits(d, w, h, f.cell, 0);
    CubeEdgeShape(f.axis);
    SplitMaskIsMixed(m, CUBE_EDGES[2 * f.axis], CUBE_EDGES[2 * f.axis + 1]);
  }

  /** A cell with corners of one sign adds nothing: `Run` moves on. */
  lemma SkipCell(d: seq<real>, w: int, h: int, p: int, vb: seq<int>, verts: seq<seq<real>>,
                 tris: seq<int>, vs: seq<Cell>, faces: seq<Face>, c: Cell)
    requires Swept(d, w, h, p, vb, verts, tris, vs, faces, c) && !MixedCell(d, w, h, c)
    ensures Swept(d, w, h, p, vb, verts, tris, vs, faces, Next(c))
  {
    forall f | Eligible(d, w, h, p, f)
      ensures FaceBefore(f, Face(c, 0)) <==> FaceBefore(f, Face(Next(c), 0))
    {
      FaceNeedsMixed(d, w, h, p, f);
      BeforeNext(f.cell, c);
    }
    FacesTransfer(d, w, h, p, vs, tris, faces, Face(c, 0), Face(Next(c), 0));
    forall b | MixedCell(d, w, h, b)
      ensures Before(b, c) <==> Before(b, Next(c))
    {
      BeforeNext(b, c);
    }
  }

  /** The cells before the one after c are c and the cells before c. */
  lemma BeforeNext(a: Cell, c: Cell)
    ensures Before(a, Next(c)) <==> Before(a, c) || a == c
  {
  }

  /** Adding the vertex of mixed cell `c` and recording its index in the
      cell's ring-buffer slot keeps the description of the sweep, with the
      cursor just past `c` for vertices and buffer. */
  lemma AddVertex(d: seq<real>, w: int, h: int, p: int, vb: seq<int>, vb': seq<int>, verts: seq<seq<real>>,
                  v: seq<real>, tris: seq<int>, vs: seq<Cell>, faces: seq<Face>, c: Cell)
    requires Swept(d, w, h, p, vb, verts, tris, vs, faces, c)
    requires InCells(w, h, p, c) && MixedCell(d, w, h, c) && 0 <= Slot(w, h, c) < |vb|
    requires vb' == vb[Slot(w, h, c) := |vs|] && v == VertexPosition(d, w, h, c)
    ensures VerticesUpTo(d, w, h, p, vs + [c], Next(c))
    ensures Positions(d, w, h, verts + [v], vs + [c])
    ensures FacesUpTo(d, w, h, p, vs + [c], tris, faces, Face(c, 0))
    ensures BufferUpTo(d, w, h, p, vb', vs + [c], Next(c))
  {
    AddVertexCell(d, w, h, p, vs, c);
    AddVertexBuffer(d, w, h, p, vb, vb', vs, c);
    AddVertexFaces(d, w, h, p, vs, tris, faces, c);
  }

  lemma AddVertexCell(d: seq<real>, w: int, h: int, p: int, vs: seq<Cell>, c: Cell)
    requires VerticesUpTo(d, w, h, p, vs, c) && InCells(w, h, p, c) && MixedCell(d, w, h, c)
    ensures VerticesUpTo(d, w, h, p, vs + [c], Next(c))
  {
  }

  lemma AddVertexBuffer(d: seq<real>, w: int, h: int, p: int, vb: seq<int>, vb': seq<int>, vs: seq<Cell>, c: Cell)
    requires BufferUpTo(d, w, h, p, vb, vs, c) && InCells(w, h, p, c) && 0 <= Slot(w, h, c) < |vb|
    requires vb' == vb[Slot(w, h, c) := |vs|]
    ensures BufferUpTo(d, w, h, p, vb', vs + [c], Next(c))
  {
    var vs' := vs + [c];
    forall c' | InCells(w, h, p, c') && MixedCell(d, w, h, c') && Before(c', Next(c)) && Next(c).z <= c'.z + 1
      ensures 0 <= Slot(w, h, c') < |vb'| && 0 <= vb'[Slot(w, h, c')] < |vs'| && vs'[vb'[Slot(w, h, c')]] == c'
    {
      if c' != c {
        assert Before(c', c);
        if Slot(w, h, c') == Slot(w, h, c) {
          SlotInjective(w, h, p, c', c);
        }
      }
    }
  }

  lemma AddVertexFaces(d: seq<real>, w: int, h: int, p: int, vs: seq<Cell>, tris: seq<int>, faces: seq<Face>, c: Cell)
    requires FacesUpTo(d, w, h, p, vs, tris, faces, Face(c, 0))
    ensures FacesUpTo(d, w, h, p, vs + [c], tris, faces, Face(c, 0))
  {
    forall q | 0 <= q < |faces|
      ensures QuadOK(d, w, h, vs + [c], tris, q, faces[q])
    {
      assert QuadOK(d, w, h, vs, tris, q, faces[q]);
    }
  }

  /** Appending the quad of an eligible face `f` moves the face cursor past `f`. */
  lemma AddFace(d: seq<real>, w: int, h: int, p: int, vs: seq<Cell>, tris: seq<int>, faces: seq<Face>,
                f: Face, quad: seq<int>)
    requires FacesUpTo(d, w, h, p, vs, tris, faces, f)
    requires Eligible(d, w, h, p, f) && |quad| == 6
    requires QuadOK(d, w, h, vs, tris + quad, |faces|, f)
    ensures FacesUpTo(d, w, h, p, vs, tris + quad, faces + [f], Face(f.cell, f.axis + 1))
  {
    var tris', faces' := tris + quad, faces + [f];
    var next := Face(f.cell, f.axis + 1);
    forall q | 0 <= q < |faces'|
      ensures Eligible(d, w, h, p, faces'[q]) && FaceBefore(faces'[q], next) && QuadOK(d, w, h, vs, tris', q, faces'[q])
    {
      if q < |faces| {
        assert faces'[q] == faces[q];
        FaceBeforeNext(faces[q], f);
        QuadOKExtend(d, w, h, vs, tris, quad, q, faces[q]);
      } else {
        FaceBeforeNext(f, f);
      }
    }
    forall g | Eligible(d, w, h, p, g) && FaceBefore(g, next)
      ensures g in faces'
    {
      FaceBeforeNext(g, f);
      if FaceBefore(g, f) { assert g in faces; }
    }
    forall q, r | 0 <= q < r < |faces'|
      ensures FaceBefore(faces'[q], faces'[r])
    {
      if r < |faces| { assert faces'[q] == faces[q] && faces'[r] == faces[r]; }
      else { assert faces'[q] == faces[q] && faces'[r] == f; }
    }
  }

  /** The face after f on the same cell bounds exactly f and the faces before it. */
  lemma FaceBeforeNext(g: Face, f: Face)
    ensures FaceBefore(g, Face(f.cell, f.axis + 1)) <==> FaceBefore(g, f) || g == f
  {
  }

  /** Appending to the triangle list leaves the earlier quads in place. */
  lemma QuadOKExtend(d: seq<real>, w: int, h: int, vs: seq<Cell>, tris: seq<int>, extra: seq<int>, q: int, f: Face)
    requires QuadOK(d, w, h, vs, tris, q, f)
    ensures QuadOK(d, w, h, vs, tris + extra, q, f)
  {
    var t := tris + extra;
    assert t[6 * q] == tris[6 * q] && t[6 * q + 1] == tris[6 * q + 1] && t[6 * q + 2] == tris[6 * q + 2];
    assert t[6 * q + 3] == tris[6 * q + 3] && t[6 * q + 4] == tris[6 * q + 4] && t[6 * q + 5] == tris[6 * q + 5];
  }

  /** A mixed cell of the sweep behind the cursor, in the current or the
      previous slice, finds its own vertex through its ring-buffer slot. */
  lemma BufferedVertex(d: seq<real>, w: int, h: int, p: int, vb: seq<int>, vs: seq<Cell>, cur: Cell, b: Cell)
    requires BufferUpTo(d, w, h, p, vb, vs, cur)
    requires InCells(w, h, p, b) && MixedCell(d, w, h, b) && Before(b, cur) && cur.z <= b.z + 1
    ensures Buffered(w, h, vb, vs, b)
  {
  }

  /** Appending the quad of vertices a, b, c, e that belong to face `f`'s cell
      and its back neighbours makes the new last quad the quad of `f`. */
  lemma AppendQuad(d: seq<real>, w: int, h: int, vs: seq<Cell>, tris: seq<int>, q: int, f: Face,
                   a: int, b: int, c: int, e: int)
    requires 0 <= q && |tris| == 6 * q
    requires 0 <= a < |vs| && 0 <= b < |vs| && 0 <= c < |vs| && 0 <= e < |vs|
    requires vs[a] == f.cell && vs[b] == Back(f.cell, (f.axis + 1) % 3) && vs[c] == Back(f.cell, (f.axis + 2) % 3)
    requires vs[e] == Back(Back(f.cell, (f.axis + 1) % 3), (f.axis + 2) % 3)
    ensures QuadOK(d, w, h, vs, tris + QuadTriangles(a, b, c, e, Bit(CellMask(d, w, h, f.cell), 0)), q, f)
  {
    var flip := Bit(CellMask(d, w, h, f.cell), 0);
    var t := tris + QuadTriangles(a, b, c, e, flip);
    assert t[6 * q] == a && t[6 * q + 4] == e;
    if flip {
      assert t[6 * q + 1] == c && t[6 * q + 2] == b && t[6 * q + 3] == c && t[6 * q + 5] == b;
    } else {
      assert t[6 * q + 1] == b && t[6 * q + 2] == c && t[6 * q + 3] == b && t[6 * q + 5] == c;
    }
  }

  /** Cell b finds its own vertex through its ring-buffer slot. */
  ghost predicate Buffered(w: int, h: int, vb: seq<int>, vs: seq<Cell>, b: Cell)
  {
    0 <= Slot(w, h, b) < |vb| && 0 <= vb[Slot(w, h, b)] < |vs| && vs[vb[Slot(w, h, b)]] == b
  }

  /** The three back neighbours around the edge of an eligible face before
      the cursor find their vertices through their ring-buffer slots. */
  lemma BufferedNeighbours(d: seq<real>, w: int, h: int, p: int, vb: seq<int>, vs: seq<Cell>, c: Cell, i: nat)
    requires Eligible(d, w, h, p, Face(c, i)) && BufferUpTo(d, w, h, p, vb, vs, Next(c))
    ensures var u, v := (i + 1) % 3, (i + 2) % 3;
      Buffered(w, h, vb, vs, Back(c, u)) && Buffered(w, h, vb, vs, Back(c, v)) &&
      Buffered(w, h, vb, vs, Back(Back(c, u), v))
  {
    var u, v := (i + 1) % 3, (i + 2) % 3;
    NeighboursMixed(d, w, h, p, c, i);
    BackBehind(c, u, v);
    BufferedVertex(d, w, h, p, vb, vs, Next(c), Back(c, u));
    BufferedVertex(d, w, h, p, vb, vs, Next(c), Back(c, v));
    BufferedVertex(d, w, h, p, vb, vs, Next(c), Back(Back(c, u), v));
  }

  /** The back neighbours along two different axes are behind the cursor
      just past c, and at most one slice before it. */
  lemma BackBehind(c: Cell, u: nat, v: nat)
    requires u < 3 && v < 3 && u != v
    ensures Before(Back(c, u), Next(c)) && Next(c).z <= Back(c, u).z + 1
    ensures Before(Back(c, v), Next(c)) && Next(c).z <= Back(c, v).z + 1
    ensures Before(Back(Back(c, u), v), Next(c)) && Next(c).z <= Back(Back(c, u), v).z + 1
  {
  }

  /** The slots of the three back neighbours around the edge of `Face(c, i)`
      are `m - R[u]`, `m - R[v]` and `m - R[u] - R[v]`. */
  lemma BackSlots(w: int, h: int, c: Cell, i: nat)
    requires i < 3
    ensures var u, v := (i + 1) % 3, (i + 2) % 3;
      var m, du, dv := Slot(w, h, c), Stride(w, h, c.z, u), Stride(w, h, c.z, v);
      Slot(w, h, Back(c, u)) == m - du && Slot(w, h, Back(c, v)) == m - dv &&
      Slot(w, h, Back(Back(c, u), v)) == m - du - dv
  {
    var u, v := (i + 1) % 3, (i + 2) % 3;
    SlotBack(w, h, c, u);
    SlotBack(w, h, c, v);
    SlotBack(w, h, Back(c, u), v);
    assert Stride(w, h, Back(c, u).z, v) == Stride(w, h, c.z, v);
  }

  /** The quad `Run` builds for eligible face `Face(c, i)` of the cell `c`
      just added: the ring-buffer entries a, b, cc, e at the cell's slot `m`
      and at `m - R[u]`, `m - R[v]`, `m - R[u] - R[v]` hold the vertices of
      the cell and its three back neighbours, so the quad names the right
      vertices. */
  lemma FaceQuad(d: seq<real>, w: int, h: int, p: int, vb: seq<int>, vs: seq<Cell>, tris: seq<int>,
                 faces: seq<Face>, c: Cell, i: nat, du: int, dv: int, a: int, b: int, cc: int, e: int)
    requires Eligible(d, w, h, p, Face(c, i)) && |tris| == 6 * |faces|
    requires |vs| > 0 && vs[|vs| - 1] == c && 0 <= Slot(w, h, c) < |vb| && vb[Slot(w, h, c)] == |vs| - 1
    requires BufferUpTo(d, w, h, p, vb, vs, Next(c))
    requires du == Stride(w, h, c.z, (i + 1) % 3) && dv == Stride(w, h, c.z, (i + 2) % 3)
    requires var m := Slot(w, h, c);
      0 <= m - du < |vb| && 0 <= m - dv < |vb| && 0 <= m - du - dv < |vb| &&
      a == vb[m] && b == vb[m - du] && cc == vb[m - dv] && e == vb[m - du - dv]
    ensures QuadOK(d, w, h, vs, tris + QuadTriangles(a, b, cc, e, Bit(CellMask(d, w, h, c), 0)), |faces|, Face(c, i))
  {
    BufferedNeighbours(d, w, h, p, vb, vs, c, i);
    QuadFromBuffer(d, w, h, vb, vs, tris, faces, c, i, du, dv, a, b, cc, e);
  }

  lemma QuadFromBuffer(d: seq<real>, w: int, h: int, vb: seq<int>, vs: seq<Cell>, tris: seq<int>,
                       faces: seq<Face>, c: Cell, i: nat, du: int, dv: int, a: int, b: int, cc: int, e: int)
    requires i < 3 && |tris| == 6 * |faces|
    requires |vs| > 0 && vs[|vs| - 1] == c && 0 <= Slot(w, h, c) < |vb| && vb[Slot(w, h, c)] == |vs| - 1
    requires var u, v := (i + 1) % 3, (i + 2) % 3;
      Buffered(w, h, vb, vs, Back(c, u)) && Buffered(w, h, vb, vs, Back(c, v)) &&
      Buffered(w, h, vb, vs, Back(Back(c, u), v))
    requires du == Stride(w, h, c.z, (i + 1) % 3) && dv == Stride(w, h, c.z, (i + 2) % 3)
    requires var m := Slot(w, h, c);
      0 <= m - du < |vb| && 0 <= m - dv < |vb| && 0 <= m - du - dv < |vb| &&
      a == vb[m] && b == vb[m - du] && cc == vb[m - dv] && e == vb[m - du - dv]
    ensures QuadOK(d, w, h, vs, tris + QuadTriangles(a, b, cc, e, Bit(CellMask(d, w, h, c), 0)), |faces|, Face(c, i))
  {
    BackSlots(w, h, c, i);
    AppendQuad(d, w, h, vs, tris, |faces|, Face(c, i), a, b, cc, e);
  }

  /** `Run`'s test for emitting a face along axis i at cell c — bit i of the
      cell's edge mask is set and the other two coordinates are not 0 — is
      eligibility. */
  lemma EligibleTest(d: seq<real>, w: int, h: int, p: int, c: Cell, i: nat, edgeMask: nat)
    requires InCells(w, h, p, c) && i < 3 && edgeMask == EdgeTable(CellMask(d, w, h, c))
    ensures Eligible(d, w, h, p, Face(c, i)) <==>
      Boolean(And(edgeMask, Pow2(i))) && Coord(c, (i + 1) % 3) != 0 && Coord(c, (i + 2) % 3) != 0
  {
    EdgeBitTest(CellMask(d, w, h, c), i, edgeMask);
    EligibleByCrossing(d, w, h, p, c, i, Boolean(And(edgeMask, Pow2(i))));
  }

  lemma EligibleByCrossing(d: seq<real>, w: int, h: int, p: int, c: Cell, i: nat, crossed: bool)
    requires InCells(w, h, p, c) && i < 3 && (Crossed(CellMask(d, w, h, c), i) <==> crossed)
    ensures Eligible(d, w, h, p, Face(c, i)) <==>
      crossed && Coord(c, (i + 1) % 3) != 0 && Coord(c, (i + 2) % 3) != 0
  {
  }

  /** The quad `Run` appends for eligible face `Face(c, i)`, built from the
      ring-buffer entries at the cell's slot `m` and at `m - du`, `m - dv`,
      `m - du - dv`, moves the face cursor past that face. */
  lemma AddFaceQuad(d: seq<real>, w: int, h: int, p: int, vb: seq<int>, vs: seq<Cell>, tris: seq<int>,
                    faces: seq<Face>, c: Cell, i: nat, du: int, dv: int, a: int, b: int, cc: int, e: int, flip: bool)
    requires Eligible(d, w, h, p, Face(c, i)) && FacesUpTo(d, w, h, p, vs, tris, faces, Face(c, i))
    requires |vs| > 0 && vs[|vs| - 1] == c && 0 <= Slot(w, h, c) < |vb| && vb[Slot(w, h, c)] == |vs| - 1
    requires BufferUpTo(d, w, h, p, vb, vs, Next(c))
    requires du == Stride(w, h, c.z, (i + 1) % 3) && dv == Stride(w, h, c.z, (i + 2) % 3)
    requires flip == Bit(CellMask(d, w, h, c), 0)
    requires var m := Slot(w, h, c);
      0 <= m - du < |vb| && 0 <= m - dv < |vb| && 0 <= m - du - dv < |vb| &&
      a == vb[m] && b == vb[m - du] && cc == vb[m - dv] && e == vb[m - du - dv]
    ensures FacesUpTo(d, w, h, p, vs, tris + QuadTriangles(a, b, cc, e, flip), faces + [Face(c, i)], Face(c, i + 1))
  {
    FaceQuad(d, w, h, p, vb, vs, tris, faces, c, i, du, dv, a, b, cc, e);
    AddFace(d, w, h, p, vs, tris, faces, Face(c, i), QuadTriangles(a, b, cc, e, flip));
  }

  /** The ring-buffer positions `Run` reads for the quad of eligible face
      `Face(c, i)` are inside the buffer. */
  lemma FaceSlots(d: seq<real>, w: int, h: int, p: int, vb: seq<int>, vs: seq<Cell>, c: Cell, i: nat)
    requires Eligible(d, w, h, p, Face(c, i))
    requires BufferUpTo(d, w, h, p, vb, vs, Next(c))
    ensures var m := Slot(w, h, c);
      var du, dv := Stride(w, h, c.z, (i + 1) % 3), Stride(w, h, c.z, (i + 2) % 3);
      0 <= m - du < |vb| && 0 <= m - dv < |vb| && 0 <= m - du - dv < |vb|
  {
    BufferedNeighbours(d, w, h, p, vb, vs, c, i);
    BackSlots(w, h, c, i);
  }

  /** Skipping a face that is not eligible moves the face cursor past it. */
  lemma SkipFace(d: seq<real>, w: int, h: int, p: int, vs: seq<Cell>, tris: seq<int>, faces: seq<Face>, f: Face)
    requires FacesUpTo(d, w, h, p, vs, tris, faces, f) && !Eligible(d, w, h, p, f)
    ensures FacesUpTo(d, w, h, p, vs, tris, faces, Face(f.cell, f.axis + 1))
  {
    var next := Face(f.cell, f.axis + 1);
    forall g | Eligible(d, w, h, p, g)
      ensures FaceBefore(g, f) <==> FaceBefore(g, next)
    {
      FaceBeforeNext(g, f);
    }
    FacesTransfer(d, w, h, p, vs, tris, faces, f, next);
  }

  /** After the three axes of cell `c` the face cursor is at the next cell. */
  lemma FacesOfCellDone(d: seq<real>, w: int, h: int, p: int, vs: seq<Cell>, tris: seq<int>, faces: seq<Face>, c: Cell)
    requires FacesUpTo(d, w, h, p, vs, tris, faces, Face(c, 3))
    ensures FacesUpTo(d, w, h, p, vs, tris, faces, Face(Next(c), 0))
  {
    FacesTransfer(d, w, h, p, vs, tris, faces, Face(c, 3), Face(Next(c), 0));
  }

  // ---------------------------------------------------------------------
  // The finished mesh

  /** Every triangle index of the finished mesh names one of its vertices. */
  lemma TrianglesInRange(d: seq<real>, w: int, h: int, p: int, vs: seq<Cell>, tris: seq<int>, faces: seq<Face>, k: int)
    requires AllFaces(d, w, h, p, vs, tris, faces) && 0 <= k < |tris|
    ensures 0 <= tris[k] < |vs|
  {
    var q, r := k / 6, k % 6;
    assert k == 6 * q + r && 0 <= q < |faces|;
    QuadEntryInRange(d, w, h, vs, tris, q, faces[q], r);
  }

  /** Each of the six entries of a well-formed quad names a vertex. */
  lemma QuadEntryInRange(d: seq<real>, w: int, h: int, vs: seq<Cell>, tris: seq<int>, q: int, f: Face, r: int)
    requires QuadOK(d, w, h, vs, tris, q, f) && 0 <= r < 6
    ensures 0 <= tris[6 * q + r] < |vs|
  {
  }

  /** The finished mesh lists each mixed cell once. */
  lemma CellsDistinct(d: seq<real>, w: int, h: int, p: int, vs: seq<Cell>, k: int, l: int)
    requires AllMixedCells(d, w, h, p, vs) && 0 <= k < |vs| && 0 <= l < |vs| && k != l
    ensures vs[k] != vs[l]
  {
    if k < l { assert Before(vs[k], vs[l]); } else { assert Before(vs[l], vs[k]); }
  }

  /** A grid whose densities all have one sign gives an empty mesh. */
  lemma UniformGridEmptyMesh(d: seq<real>, w: int, h: int, p: int, vs: seq<Cell>, tris: seq<int>, faces: seq<Face>)
    requires |d| == w * h * p
    requires (forall i :: 0 <= i < |d| ==> d[i] >= 0.0) || (forall i :: 0 <= i < |d| ==> d[i] < 0.0)
    requires AllMixedCells(d, w, h, p, vs) && AllFaces(d, w, h, p, vs, tris, faces)
    ensures vs == [] && faces == [] && tris == []
  {
    if |vs| > 0 {
      UniformGridNoMixedCell(d, w, h, p, vs[0]);
    }
    assert |faces| > 0 ==> QuadOK(d, w, h, vs, tris, 0, faces[0]);
  }

  // ---------------------------------------------------------------------
  // Determinism

  /** Two lists, each strictly increasing under the asymmetric order `lt`
      and holding the same members, are the same list. */
  lemma {:induction false} SortedUnique<T>(lt: (T, T) -> bool, a: seq<T>, b: seq<T>)
    requires forall x, y :: lt(x, y) ==> !lt(y, x)
    requires forall k, l :: 0 <= k < l < |a| ==> lt(a[k], a[l])
    requires forall k, l :: 0 <= k < l < |b| ==> lt(b[k], b[l])
    requires forall x :: x in a <==> x in b
    ensures a == b
    decreases |a|
  {
    SameMembersEmpty(a, b);
    if a != [] {
      SortedHead(lt, a, b);
      forall x
        ensures x in a[1..] <==> x in b[1..]
      {
        TailMembers(lt, a, x);
        TailMembers(lt, b, x);
      }
      SortedUnique(lt, a[1..], b[1..]);
      assert a == [a[0]] + a[1..];
      assert b == [b[0]] + b[1..];
    }
  }

  /** Lists with the same members are empty together. */
  lemma SameMembersEmpty<T>(a: seq<T>, b: seq<T>)
    requires forall x :: x in a <==> x in b
    ensures a == [] <==> b == []
  {
    if a != [] {
      assert a[0] in a;
    }
    if b != [] {
      assert b[0] in b;
    }
  }

  /** Strictly increasing lists with the same members start alike: each
      head is at most the other. */
  lemma SortedHead<T>(lt: (T, T) -> bool, a: seq<T>, b: seq<T>)
    requires forall x, y :: lt(x, y) ==> !lt(y, x)
    requires forall k, l :: 0 <= k < l < |a| ==> lt(a[k], a[l])
    requires forall k, l :: 0 <= k < l < |b| ==> lt(b[k], b[l])
    requires forall x :: x in a <==> x in b
    requires a != [] && b != []
    ensures a[0] == b[0]
  {
    assert a[0] in b;
    var j :| 0 <= j < |b| && b[j] == a[0];
    assert b[0] in a;
    var k :| 0 <= k < |a| && a[k] == b[0];
  }

  /** The tail of a strictly increasing list holds its members other than
      the head. */
  lemma TailMembers<T>(lt: (T, T) -> bool, a: seq<T>, x: T)
    requires forall x, y :: lt(x, y) ==> !lt(y, x)
    requires forall k, l :: 0 <= k < l < |a| ==> lt(a[k], a[l])
    requires |a| > 0
    ensures x in a[1..] <==> x in a && x != a[0]
  {
    if x in a[1..] {
      var i :| 0 <= i < |a| - 1 && a[1..][i] == x;
      assert lt(a[0], a[i + 1]);
    }
    if x in a && x != a[0] {
      var i :| 0 <= i < |a| && a[i] == x;
      assert a[1..][i - 1] == x;
    }
  }

  /** Two quads of the same face over the same distinct vertex list agree
      entry for entry. */
  lemma QuadDetermined(d: seq<real>, w: int, h: int, vs: seq<Cell>, tris: seq<int>, tris': seq<int>, q: int, f: Face,
                       r: int)
    requires forall k, l :: 0 <= k < l < |vs| ==> Before(vs[k], vs[l])
    requires QuadOK(d, w, h, vs, tris, q, f) && QuadOK(d, w, h, vs, tris', q, f) && 0 <= r < 6
    ensures tris[6 * q + r] == tris'[6 * q + r]
  {
    forall k, l | 0 <= k < |vs| && 0 <= l < |vs| && k != l
      ensures vs[k] != vs[l]
    {
      if k < l {
        assert Before(vs[k], vs[l]);
      } else {
        assert Before(vs[l], vs[k]);
      }
    }
  }

  /** Two lists of exactly the mixed cells, in sweep order, are equal. */
  lemma CellsDetermined(d: seq<real>, w: int, h: int, p: int, vs: seq<Cell>, vs': seq<Cell>)
    requires AllMixedCells(d, w, h, p, vs) && AllMixedCells(d, w, h, p, vs')
    ensures vs == vs'
  {
    var before := (a: Cell, b: Cell) => Before(a, b);
    assert forall k, l :: 0 <= k < l < |vs| ==> before(vs[k], vs[l]);
    assert forall k, l :: 0 <= k < l < |vs'| ==> before(vs'[k], vs'[l]);
    SortedUnique(before, vs, vs');
  }

  /** Two lists of exactly the eligible faces, in sweep order, are equal. */
  lemma FacesDetermined(d: seq<real>, w: int, h: int, p: int, vs: seq<Cell>, tris: seq<int>, faces: seq<Face>,
                        vs': seq<Cell>, tris': seq<int>, faces': seq<Face>)
    requires AllFaces(d, w, h, p, vs, tris, faces) && AllFaces(d, w, h, p, vs', tris', faces')
    ensures faces == faces'
  {
    var faceBefore := (f: Face, g: Face) => FaceBefore(f, g);
    assert forall q, r :: 0 <= q < r < |faces| ==> faceBefore(faces[q], faces[r]);
    assert forall q, r :: 0 <= q < r < |faces'| ==> faceBefore(faces'[q], faces'[r]);
    SortedUnique(faceBefore, faces, faces');
  }

  /** The same faces over the same vertex list give the same triangles. */
  lemma TrianglesDetermined(d: seq<real>, w: int, h: int, p: int, vs: seq<Cell>, tris: seq<int>, tris': seq<int>,
                            faces: seq<Face>)
    requires forall k, l :: 0 <= k < l < |vs| ==> Before(vs[k], vs[l])
    requires AllFaces(d, w, h, p, vs, tris, faces) && AllFaces(d, w, h, p, vs, tris', faces)
    ensures tris == tris'
  {
    forall i | 0 <= i < |tris|
      ensures tris[i] == tris'[i]
    {
      var q, r := i / 6, i % 6;
      assert i == 6 * q + r && 0 <= q < |faces|;
      QuadDetermined(d, w, h, vs, tris, tris', q, faces[q], r);
    }
  }

  /** The mesh `Run` promises is a function of the grid: two results that
      both list exactly the mixed cells, their positions and the eligible
      faces' quads are identical, vertex for vertex and index for index. */
  lemma MeshDetermined(d: seq<real>, w: int, h: int, p: int,
                       vs: seq<Cell>, verts: seq<seq<real>>, tris: seq<int>, faces: seq<Face>,
                       vs': seq<Cell>, verts': seq<seq<real>>, tris': seq<int>, faces': seq<Face>)
    requires AllMixedCells(d, w, h, p, vs) && Positions(d, w, h, verts, vs) && AllFaces(d, w, h, p, vs, tris, faces)
    requires AllMixedCells(d, w, h, p, vs') && Positions(d, w, h, verts', vs') && AllFaces(d, w, h, p, vs', tris', faces')
    ensures vs == vs' && verts == verts' && faces == faces' && tris == tris'
  {
    CellsDetermined(d, w, h, p, vs, vs');
    FacesDetermined(d, w, h, p, vs, tris, faces, vs', tris', faces');
    TrianglesDetermined(d, w, h, p, vs, tris, tris', faces);
  }
}
