# VoxelTerrain core in Dafny

A Dafny model of the terrain core of VoxelTerrain, a Unity project that builds voxel terrain from density chunks. It covers five parts:

- **`SurfaceNets`** is a dual-contouring mesher.
  - Its static constructor builds two tables: the 12 edges of a cube (`cube_edges`) and the 256-entry table of crossed edges (`edge_table`).
  - `Run` sweeps a `w×h×p` density grid once. For every *mixed* cell it emits one vertex (a cell is mixed when some corners have negative density and some do not). It places that vertex at the average of the edge crossings. It emits one quad per crossed grid edge that lies away from the boundary.
  - The x/y indices of the vertices of the current and previous z-slices are kept in a shared ring buffer, `vertexBuffer`.
- **`Chunk`** is a 32×32×32 chunk. It samples its terrain function at most 4048 points per frame with a resumable (x, y, z) cursor. Once every point is sampled, it runs the mesher exactly once and reports `Complete`.
- **`IsoTerrain`** is the same state machine with a 64×64×64 grid, a budget of 2048 points per frame and no `Complete`.
- **`World`** queues the 6×3×6 lattice positions in (x, z, y) loop order. It creates the chunk of the head of the queue, and creates the next chunk only when the current one is `Complete`. Each chunk is placed at `30·c − 15` on every axis.
- **`WorldPos`** is a lattice position with a wrapping 32-bit polynomial hash (seed 47, factor 227). Its `Equals` compares only the hashes.

The model follows the shape of the code:

- The C# code mutates state, so the chunks, the world and the static mesher state are classes. Their methods have `modifies` clauses, and every loop of the source is a `while` loop with invariants.
- `SurfaceNets.Run` is one method whose body calls one helper per loop level: slice, row, cell, corner gather, edge loop and face loop. Each helper is proved against ghost predicates that describe the mesh built so far (`Swept`). The finished mesh is characterised by three predicates:
  - `AllMixedCells`: the vertex list holds exactly the mixed cells, in sweep order.
  - `Positions`: every vertex sits at the averaged crossing point of its cell.
  - `AllFaces`: the face list holds exactly the eligible faces, each with its quad wound by corner 0.
- Bit operations (`&`, `|`, `^`, `<<`) are modelled on natural numbers. Densities and vertex coordinates are exact reals. Integer arithmetic in `WorldPos` is wrapped to 32 bits explicitly.

Files:

| file | module | contents |
|---|---|---|
| `bits.dfy` | `Bits` | `&`, `\|`, `^`, `1 << k` and `boolean` on naturals |
| `density_grid.dfy` | `DensityGrid` | the linear index `z*h*w + y*w + x` |
| `surface_nets_tables.dfy` | `SurfaceNetsTables` | `cube_edges` and `edge_table` as values, and their properties |
| `surface_nets_grid.dfy` | `SurfaceNetsGrid` | cells, corner masks, ring-buffer slots, eligible faces, quads |
| `surface_nets_vertex.dfy` | `SurfaceNetsVertex` | edge crossings and the averaged vertex position |
| `surface_nets_sweep.dfy` | `SurfaceNetsSweep` | the sweep state, its step lemmas, the finished mesh and its uniqueness |
| `surface_nets.dfy` | `SurfaceNetsExtractor` | class `SurfaceNets`: table construction and `Run` |
| `sampling_cursor.dfy` | `SamplingCursor` | the cursor shared by `Chunk` and `IsoTerrain`, and the grid after k samples |
| `chunk.dfy` | `ChunkTerrain` | class `Chunk` |
| `iso_terrain.dfy` | `IsoTerrainBlock` | class `IsoTerrain` |
| `world_pos.dfy` | `WorldPosition` | class `WorldPos`, 32-bit wrapping, the hash |
| `world.dfy` | `WorldScheduler` | class `World` and its queue |

In three places the code departs from the usual description of the algorithm and its scheduler; the model follows the code:

- A crossed edge whose two densities differ by at most 1e-6 is skipped while crossings are summed (`SurfaceNets.cs:189-194`). It has already been counted in `e_count` (`SurfaceNets.cs:176`), so it still counts in the divisor of the average. `SumCrossings` and `VertexFromSums` keep this.
- A face is skipped only when its own cell has a zero coordinate on one of the two transverse axes (`SurfaceNets.cs:238-240`). Its quad still uses the vertices of the three back neighbours, and those can lie in the margin layer. So "no triangle references a vertex of a cell with a zero coordinate" is not guaranteed: `MarginVertexInQuad` shows that the quad of any eligible x-face of a cell with y = 1 uses the vertex of a cell with y = 0.
- Position equality is the hash comparison of the code (see Findings).

## Model

| member | source | states |
|---|---|---|
| Bits.Pow2 | Assets/SurfaceNets.cs:59-61 | `1 << k` for a non-negative shift is at least 1 (the same shift appears at lines 151 and 171) |
| Bits.And | Assets/SurfaceNets.cs:59-60 | `a & b` is at most either operand (also line 171) |
| Bits.Or | Assets/SurfaceNets.cs:61 | `a \| b` is at least either operand and at most their sum (also line 151) |
| Bits.Xor | Assets/SurfaceNets.cs:42 | `i ^ j` is at most i + j and is 0 exactly when i == j, so every corner's partners differ from it |
| Bits.Boolean | Assets/SurfaceNets.cs:287-289 | `boolean(i)` is `i > 0`, which on the non-negative masks passed to it is the test `i != 0` |
| Bits.Bit | Assets/SurfaceNets.cs:59-60 | bit k of a non-negative mask, the reference definition behind `EdgeTableBits`, `AndPow2` and `SignMaskBits` (a definition with no contract of its own) |
| Bits.BitOfZero | Assets/SurfaceNets.cs:57 | the empty mask `em = 0` has no bit set |
| Bits.BitOfPow2 | Assets/SurfaceNets.cs:59-61 | `1 << t` has bit k set exactly when k = t |
| Bits.BitOfOr | Assets/SurfaceNets.cs:61 | a bit of `a \| b` is set iff it is set in a or in b |
| Bits.BitOfOrSingle | Assets/SurfaceNets.cs:151 | `mask \|= cond ? (1 << g) : 0` adds bit g exactly when cond holds, and keeps every other bit |
| Bits.BitOfAnd | Assets/SurfaceNets.cs:59-60 | a bit of `a & b` is set iff it is set in both |
| Bits.BitOfXor | Assets/SurfaceNets.cs:42 | a bit of `i ^ j` is set iff it differs between i and j |
| Bits.AndPow2 | Assets/SurfaceNets.cs:171 | `a & (1 << k)` is `1 << k` or 0 according to bit k, and `boolean` of it is bit k |
| Bits.OrBound | Assets/SurfaceNets.cs:61 | or-ing masks below 2^n stays below 2^n |
| Bits.NoBitsIsZero | Assets/SurfaceNets.cs:158 | a mask below 2^n with none of its n bits set is 0 |
| Bits.AllBitsIsMax | Assets/SurfaceNets.cs:158 | a mask below 2^n with all of its n bits set is 2^n − 1 (0xff for the 8 corners) |
| Bits.ComplementBit | Assets/SurfaceNets.cs:158 | bit k of 2^n − 1 − a is the negation of bit k of a |
| DensityGrid.IndexShift | Assets/SurfaceNets.cs:145-148 | moving (i, j, k) from a point moves the linear index by `k*h*w + j*w + i`, as the corner loop's `idx` stepping does |
| DensityGrid.IndexInRange | Assets/Chunk.cs:47 | every point of a w×h×p grid has its linear index in `[0, w*h*p)` |
| SurfaceNetsTables.CubeEdgesGenerated | Assets/SurfaceNets.cs:38-49 | the pairs `(i, i^j)` with `i <= i^j`, for i = 0..7 and j = 1, 2, 4, are exactly the 24 entries of the cube-edge table |
| SurfaceNetsTables.EdgesPrefix | Assets/SurfaceNets.cs:40-47 | after any number of loop steps, the entries written so far are a prefix of the final table |
| SurfaceNetsTables.CubeEdgeShape | Assets/SurfaceNets.cs:43-45 | each edge lists its lower corner first, and both corners are below 8 |
| SurfaceNetsTables.CubeEdgeAxis | Assets/SurfaceNets.cs:42 | the two corners of every edge differ in exactly one axis bit (xor is 1, 2 or 4) |
| SurfaceNetsTables.CubeEdgeAxisLow | Assets/SurfaceNets.cs:42 | the one-axis property for edges 0..5 |
| SurfaceNetsTables.CubeEdgeAxisHigh | Assets/SurfaceNets.cs:42 | the one-axis property for edges 6..11 |
| SurfaceNetsTables.CubeEdgeFromZero | Assets/SurfaceNets.cs:226-228 | edges 0, 1 and 2 run from corner 0 along x, y and z, so the first three edge-mask bits are the crossings at corner 0 |
| SurfaceNetsTables.EdgeMaskStep | Assets/SurfaceNets.cs:58-62 | one step of the inner loop of `initEdgeTable` adds bit e exactly when the two corners of edge e have different signs |
| SurfaceNetsTables.EdgeMaskPrefixBound | Assets/SurfaceNets.cs:58-62 | the edge mask stays below 2^12 |
| SurfaceNetsTables.EdgeMaskPrefixBits | Assets/SurfaceNets.cs:58-62 | after t steps, bit e is set iff e < t and edge e is crossed |
| SurfaceNetsTables.EdgeTableBits | Assets/SurfaceNets.cs:55-65 | `edge_table[m]` is a 12-bit mask whose bit e is set iff edge e is crossed under corner mask m |
| SurfaceNetsTables.EdgeBitTest | Assets/SurfaceNets.cs:171 | `boolean(edge_mask & (1 << e))` is exactly "edge e is crossed" |
| SurfaceNetsTables.CrossedComplement | Assets/SurfaceNets.cs:59-61 | flipping every corner sign crosses the same edges |
| SurfaceNetsTables.EdgeMaskPrefixComplement | Assets/SurfaceNets.cs:58-62 | the partial edge mask of the complement mask is the same |
| SurfaceNetsTables.EdgeTableComplement | Assets/SurfaceNets.cs:55-65 | `edge_table[255 - m] == edge_table[m]` |
| SurfaceNetsTables.UncrossedIsUniform | Assets/SurfaceNets.cs:158 | a corner mask with no crossed edge is 0 or 0xff |
| SurfaceNetsTables.UncrossedPrefixIsZero | Assets/SurfaceNets.cs:57-62 | with no crossed edge among the first t, the partial mask is 0 |
| SurfaceNetsTables.ZeroMaskUncrossed | Assets/SurfaceNets.cs:158 | the all-positive mask crosses no edge |
| SurfaceNetsTables.UniformEdgeTable | Assets/SurfaceNets.cs:158-160 | `edge_table[0]` and `edge_table[0xff]` are 0: the early exit skips only cells with no crossing |
| SurfaceNetsTables.MixedEdgeTable | Assets/SurfaceNets.cs:158-163 | every other mask has a nonzero edge mask |
| SurfaceNetsTables.PopCountIsCrossCount | Assets/SurfaceNets.cs:168-176 | the number of set bits of the edge mask among the first t is the number of crossed edges among them |
| SurfaceNetsTables.CrossCountPositive | Assets/SurfaceNets.cs:176 | one crossed edge makes the count at least 1 |
| SurfaceNetsTables.MixedHasCrossing | Assets/SurfaceNets.cs:212 | a mixed cell has `e_count >= 1`, so `1.0f / e_count` is defined |
| SurfaceNetsGrid.SignMaskBits | Assets/SurfaceNets.cs:145-154 | the gathered mask is below 2^g and its bit g is set iff corner g is negative |
| SurfaceNetsGrid.SignMaskSnoc | Assets/SurfaceNets.cs:151 | gathering one more corner ors in its bit when it is negative |
| SurfaceNetsGrid.CellMaskBits | Assets/SurfaceNets.cs:145-154 | a cell's mask is below 256 and its bit g is set iff corner g of the cell is negative |
| SurfaceNetsGrid.CornerAt | Assets/SurfaceNets.cs:146-150 | corner `4k + 2j + i` of a cell is read from data index `n + k*w*h + j*w + i`, inside the data |
| SurfaceNetsGrid.SplitMaskIsMixed | Assets/SurfaceNets.cs:158 | two corners of different sign make the mask neither 0 nor 0xff |
| SurfaceNetsGrid.SplitCellIsMixed | Assets/SurfaceNets.cs:158 | the same for the densities of a cell |
| SurfaceNetsGrid.UniformCellNotMixed | Assets/SurfaceNets.cs:158-160 | a cell whose eight corners share a sign is skipped |
| SurfaceNetsGrid.UniformGridNoMixedCell | Assets/SurfaceNets.cs:158-160 | in a grid of one sign no cell is mixed |
| SurfaceNetsGrid.SlotBack | Assets/SurfaceNets.cs:243-251 | the slot of a back neighbour along an axis is `m - R[axis]` |
| SurfaceNetsGrid.SlotOfRowStart | Assets/SurfaceNets.cs:136 | `m = 1 + (w+1)*(1 + buf_no*(h+1))` is the slot of the first cell of the slice |
| SurfaceNetsGrid.NextRow | Assets/SurfaceNets.cs:138-139 | at the end of a row, `++n` and `m += 2` reach the first cell of the next row |
| SurfaceNetsGrid.NextSlice | Assets/SurfaceNets.cs:128 | `n += w`, `buf_no ^= 1` and `R[2] = -R[2]` set up the next slice |
| SurfaceNetsGrid.SlotInRange | Assets/SurfaceNets.cs:116-118 | every slot lies inside a buffer of `2*(w+1)*(h+1)` entries, the size the resize guarantees |
| SurfaceNetsGrid.SlotInjective | Assets/SurfaceNets.cs:136-139 | cells of the current and previous slice never share a slot |
| SurfaceNetsGrid.SlotDigits | Assets/SurfaceNets.cs:136 | a slot is the mixed-radix number (x+1, y+1, z parity) |
| SurfaceNetsGrid.NeighboursMixed | Assets/SurfaceNets.cs:238-251 | for an eligible face, the three back neighbours of the cell are inside the grid and mixed, so they have vertices |
| SurfaceNetsGrid.NeighboursAlong | Assets/SurfaceNets.cs:228-240 | the same, from the crossed-edge and boundary tests of the face loop |
| SurfaceNetsGrid.BackInCells | Assets/SurfaceNets.cs:238-240 | off the boundary on both transverse axes, the back neighbours are cells of the grid |
| SurfaceNetsGrid.CrossedCorners | Assets/SurfaceNets.cs:226-228 | a crossed edge i at corner 0 means corners 0 and 2^i have different signs |
| SurfaceNetsGrid.NeighboursMixedX | Assets/SurfaceNets.cs:234-235 | an x-crossing is shared by the y-, z- and yz-back neighbours |
| SurfaceNetsGrid.NeighboursMixedY | Assets/SurfaceNets.cs:234-235 | a y-crossing is shared by the z-, x- and zx-back neighbours |
| SurfaceNetsGrid.NeighboursMixedZ | Assets/SurfaceNets.cs:234-235 | a z-crossing is shared by the x-, y- and xy-back neighbours |
| SurfaceNetsGrid.QuadAtMeansQuadTriangles | Assets/SurfaceNets.cs:255-271 | the six appended indices are the two triangles of the quad |
| SurfaceNetsGrid.WindingFlip | Assets/SurfaceNets.cs:255-271 | the negative-corner winding is the other winding with u and v swapped, so the first triangle is reversed |
| SurfaceNetsVertex.Abs | Assets/SurfaceNets.cs:190 | `Mathf.Abs` is non-negative and is r or −r |
| SurfaceNetsVertex.AddOffsetsStep | Assets/SurfaceNets.cs:198-207 | one step of the axis loop adds `1-t`, `t`, `1` or `0` to component j |
| SurfaceNetsVertex.EdgeSumStep | Assets/SurfaceNets.cs:168-208 | one step of the edge loop adds the crossing of edge i exactly when it is flagged and not degenerate |
| SurfaceNetsVertex.VertexFromSums | Assets/SurfaceNets.cs:212-215 | `location + (1/e_count)·v` is the vertex position of the cell |
| SurfaceNetsVertex.AverageIsScaledSum | Assets/SurfaceNets.cs:212-215 | the average of a mixed cell is the crossing sum scaled by 1/e_count with e_count >= 1 |
| SurfaceNetsVertex.CrossingIsRoot | Assets/SurfaceNets.cs:189-191 | `t = g0/(g0-g1)` is the root of the linear interpolant, and lies in [0, 1] when the signs differ |
| SurfaceNetsVertex.OffsetInUnit | Assets/SurfaceNets.cs:198-207 | each per-axis offset lies in [0, 1] |
| SurfaceNetsVertex.EdgeSumBounds | Assets/SurfaceNets.cs:168-208 | each component of the sum lies between 0 and the number of flagged edges |
| SurfaceNetsVertex.EdgeSumBoundsStep | Assets/SurfaceNets.cs:168-208 | one edge raises a component of the sum by at most 1 |
| SurfaceNetsVertex.MixedGridHasCrossing | Assets/SurfaceNets.cs:212 | a mixed corner grid has at least one flagged edge |
| SurfaceNetsVertex.AverageInUnit | Assets/SurfaceNets.cs:212-215 | each component of the averaged offset lies in [0, 1] |
| SurfaceNetsVertex.ScaledInUnit | Assets/SurfaceNets.cs:212-215 | scaling a sum bounded by the count by 1/count gives a value in [0, 1] |
| SurfaceNetsVertex.AtCornerComponent | Assets/SurfaceNets.cs:213-215 | component q of the vertex is `location[q]` plus the offset |
| SurfaceNetsVertex.VertexInCell | Assets/SurfaceNets.cs:212-215 | the vertex of a mixed cell lies inside the cell: `c ≤ v ≤ c + 1` on every axis |
| SurfaceNetsSweep.RowDone | Assets/SurfaceNets.cs:138-139 | the end of a row leaves the same cells behind as the start of the next |
| SurfaceNetsSweep.SliceDone | Assets/SurfaceNets.cs:128-138 | the end of a slice leaves the same cells behind as the start of the next |
| SurfaceNetsSweep.FacesTransfer | Assets/SurfaceNets.cs:224-272 | the faces built so far depend only on which faces precede the cursor |
| SurfaceNetsSweep.SweptTransfer | Assets/SurfaceNets.cs:128-139 | the sweep state carries over between cursors with the same cells behind them |
| SurfaceNetsSweep.SweepDone | Assets/SurfaceNets.cs:275-278 | when the z loop ends, the vertices are all mixed cells and the faces are all eligible faces |
| SurfaceNetsSweep.FaceNeedsMixed | Assets/SurfaceNets.cs:158-160 | an eligible face belongs to a mixed cell, which the early exit never skips |
| SurfaceNetsSweep.SkipCell | Assets/SurfaceNets.cs:158-160 | skipping a non-mixed cell keeps the sweep state for the next cell |
| SurfaceNetsSweep.BeforeNext | Assets/SurfaceNets.cs:139 | the cells before the next x are those before this cell, plus this cell |
| SurfaceNetsSweep.AddVertex | Assets/SurfaceNets.cs:219-220 | `vertexBuffer[m] = vertices.Count; vertices.Add(v)` extends the vertex list and buffer with this cell |
| SurfaceNetsSweep.AddVertexCell | Assets/SurfaceNets.cs:220 | appending the cell keeps the vertex list complete and in sweep order |
| SurfaceNetsSweep.AddVertexBuffer | Assets/SurfaceNets.cs:219 | the buffer write keeps every buffered neighbour's slot correct |
| SurfaceNetsSweep.AddVertexFaces | Assets/SurfaceNets.cs:220 | adding a vertex keeps the quads built so far valid |
| SurfaceNetsSweep.AddFace | Assets/SurfaceNets.cs:255-271 | appending the quad of an eligible face extends the face list in order |
| SurfaceNetsSweep.FaceBeforeNext | Assets/SurfaceNets.cs:224 | the faces before axis i+1 are those before axis i, plus face i |
| SurfaceNetsSweep.QuadOKExtend | Assets/SurfaceNets.cs:256-270 | appending triangles keeps earlier quads intact |
| SurfaceNetsSweep.BufferedVertex | Assets/SurfaceNets.cs:248-251 | a mixed cell of this or the previous slice behind the cursor is found in its buffer slot |
| SurfaceNetsSweep.AppendQuad | Assets/SurfaceNets.cs:255-271 | the six indices the face loop appends name the cell and its three back neighbours |
| SurfaceNetsSweep.BufferedNeighbours | Assets/SurfaceNets.cs:243-251 | the three back neighbours of an eligible face are in the buffer |
| SurfaceNetsSweep.BackBehind | Assets/SurfaceNets.cs:243-251 | the back neighbours precede the cursor and lie in this or the previous slice |
| SurfaceNetsSweep.BackSlots | Assets/SurfaceNets.cs:243-251 | their slots are `m - du`, `m - dv` and `m - du - dv` |
| SurfaceNetsSweep.FaceQuad | Assets/SurfaceNets.cs:248-271 | the quad read from the buffer is the quad of the face |
| SurfaceNetsSweep.QuadFromBuffer | Assets/SurfaceNets.cs:248-271 | the same, given the buffered neighbours |
| SurfaceNetsSweep.EligibleTest | Assets/SurfaceNets.cs:228-240 | the face-loop tests (bit i of the edge mask, nonzero transverse coordinates) are exactly face eligibility |
| SurfaceNetsSweep.EligibleByCrossing | Assets/SurfaceNets.cs:228-240 | the same test phrased with the crossing of edge i |
| SurfaceNetsSweep.AddFaceQuad | Assets/SurfaceNets.cs:243-271 | emitting the quad of an eligible face advances the face state by one face |
| SurfaceNetsSweep.FaceSlots | Assets/SurfaceNets.cs:248-251 | the three back slots are inside the buffer |
| SurfaceNetsSweep.SkipFace | Assets/SurfaceNets.cs:228-240 | a face that fails the tests is skipped without changing the state |
| SurfaceNetsSweep.FacesOfCellDone | Assets/SurfaceNets.cs:224-272 | after the three axes, the face state moves to the next cell |
| SurfaceNetsSweep.TrianglesInRange | Assets/SurfaceNets.cs:255-271 | every triangle index of the finished mesh names a vertex |
| SurfaceNetsSweep.QuadEntryInRange | Assets/SurfaceNets.cs:255-271 | each entry of a quad names a vertex |
| SurfaceNetsSweep.CellsDistinct | Assets/SurfaceNets.cs:219-220 | the finished mesh has one vertex per mixed cell, never two |
| SurfaceNetsSweep.UniformGridEmptyMesh | Assets/SurfaceNets.cs:158-160 | a grid whose densities all have one sign gives no vertex, no face and no triangle |
| SurfaceNetsSweep.QuadDetermined | Assets/SurfaceNets.cs:248-271 | the quad of a face over a given vertex list is unique |
| SurfaceNetsSweep.CellsDetermined | Assets/SurfaceNets.cs:219-220 | the vertex list of the finished mesh is unique |
| SurfaceNetsSweep.FacesDetermined | Assets/SurfaceNets.cs:224-272 | the face list of the finished mesh is unique |
| SurfaceNetsSweep.TrianglesDetermined | Assets/SurfaceNets.cs:255-271 | the triangle list of the finished mesh is unique |
| SurfaceNetsSweep.MeshDetermined | Assets/SurfaceNets.cs:94-279 | two results meeting the finished-mesh predicates on one grid agree in vertices, positions, faces and triangles |
| SurfaceNetsExtractor.SurfaceNets.constructor | Assets/SurfaceNets.cs:67-70 | the static state: both tables filled by the static constructor and a 4096-entry vertex buffer |
| SurfaceNetsExtractor.SurfaceNets.InitCubeEdges | Assets/SurfaceNets.cs:38-49 | the loops leave `cube_edges` equal to the 12 cube edges |
| SurfaceNetsExtractor.SurfaceNets.AddNeighbour | Assets/SurfaceNets.cs:42-46 | one `j` step appends the edge `(i, i^j)` when `i <= i^j` and advances `k` by 2 |
| SurfaceNetsExtractor.SurfaceNets.InitEdgeTable | Assets/SurfaceNets.cs:55-65 | the loops leave `edge_table[m]` equal to the crossed-edge mask of m, for all 256 masks |
| SurfaceNetsExtractor.SurfaceNets.CrossedEdges | Assets/SurfaceNets.cs:57-63 | the inner loop computes the crossed-edge mask of m |
| SurfaceNetsExtractor.SurfaceNets.AddEdgeBit | Assets/SurfaceNets.cs:59-61 | one step ors in bit `j >> 1` when the corners of the edge differ in sign |
| SurfaceNetsExtractor.SurfaceNets.GatherCorners | Assets/SurfaceNets.cs:145-154 | the k loop of the corner loops (with `idx += w*(h-2)` per step) fills `grid` with the cell's eight densities and builds its sign mask |
| SurfaceNetsExtractor.SurfaceNets.GatherPlane | Assets/SurfaceNets.cs:147-152 | the j loop (with `idx += w-2` per step) adds plane k's four corners to `grid` and the mask and moves `idx` by `2*w` |
| SurfaceNetsExtractor.SurfaceNets.GatherRow | Assets/SurfaceNets.cs:148-152 | the i loop (with `++g, ++idx`) adds row j's two corners to `grid` and the mask |
| SurfaceNetsExtractor.SurfaceNets.LoadCorner | Assets/SurfaceNets.cs:148-152 | reading `data[idx]` stores corner g and ors in its sign bit |
| SurfaceNetsExtractor.SurfaceNets.SumCrossings | Assets/SurfaceNets.cs:163-208 | the edge loop counts the flagged edges and sums the crossings of the non-degenerate ones |
| SurfaceNetsExtractor.SurfaceNets.AddEdge | Assets/SurfaceNets.cs:170-207 | one step of the edge loop advances the count and the sum by edge i |
| SurfaceNetsExtractor.SurfaceNets.AddCrossing | Assets/SurfaceNets.cs:198-207 | the axis loop adds the crossing offsets to all three components |
| SurfaceNetsExtractor.SurfaceNets.EmitFaces | Assets/SurfaceNets.cs:224-272 | the face loop appends exactly the quads of the cell's eligible faces, in axis order |
| SurfaceNetsExtractor.SurfaceNets.EmitFace | Assets/SurfaceNets.cs:228-271 | one axis: the quad is appended iff the face is eligible, wound by corner 0 |
| SurfaceNetsExtractor.SurfaceNets.EmitQuad | Assets/SurfaceNets.cs:243-271 | an eligible face: the six indices read from the buffer slots of c and its back neighbours are appended after the existing triangles, the face is recorded, and the face invariant moves past it |
| SurfaceNetsExtractor.SurfaceNets.Translate | Assets/SurfaceNets.cs:212-215 | `v[i] = location[i] + s * v[i]` |
| SurfaceNetsExtractor.SurfaceNets.ProcessCell | Assets/SurfaceNets.cs:141-272 | one cell: a vertex and its faces if mixed, nothing otherwise; the sweep state moves to the next cell |
| SurfaceNetsExtractor.SurfaceNets.SweepCell | Assets/SurfaceNets.cs:139 | one x step moves the sweep state to the next cell, with `n` and `m` tracking it |
| SurfaceNetsExtractor.SurfaceNets.SweepRow | Assets/SurfaceNets.cs:139-273 | the x loop moves the sweep state across a row; `n` and `m` advance by w − 1 |
| SurfaceNetsExtractor.SurfaceNets.SweepSlice | Assets/SurfaceNets.cs:136-274 | the y loop moves the sweep state across a slice |
| SurfaceNetsExtractor.SurfaceNets.Run | Assets/SurfaceNets.cs:94-279 | the buffer grows to `2*(w+1)*(h+1)` when smaller, and the mesh has one vertex per mixed cell in sweep order, at its averaged crossing point, and one correctly wound quad per eligible face |
| SurfaceNetsExtractor.RunDeterministic | Assets/SurfaceNets.cs:94-279 | two runs on the same grid return the same mesh, whatever the buffer held before |
| SurfaceNetsExtractor.MeshIndicesValid | Assets/SurfaceNets.cs:255-278 | the triangle list has six entries per face, so it is a multiple of 3, and every index is below the vertex count |
| SurfaceNetsExtractor.MarginVertexInQuad | Assets/SurfaceNets.cs:238-251 | an x-face of a cell with y = 1 uses a vertex of a cell with y = 0 |
| SamplingCursor.Advance | Assets/Chunk.cs:96-106 | one cursor step (`++x`, then the wrap of x into y, then the wrap of y into z; also IsoTerrain.cs:73-83); what the step guarantees is stated by `AdvanceIndex`, `PointAtIndex` and `IndexBeyond` |
| SamplingCursor.StepAt | Assets/Chunk.cs:96-111 | step k + 1 of the cursor is one `Advance` from step k, stays in the slab, and has `z >= p` exactly when it is the last of the `w*h*p` steps |
| SamplingCursor.AdvanceIndex | Assets/Chunk.cs:96-106 | one cursor step keeps x and y in range and moves `z*h*w + y*w + x` forward by one |
| SamplingCursor.PointAtIndex | Assets/Chunk.cs:92-111 | after k steps the cursor is at linear index k: the points are visited in increasing index order |
| SamplingCursor.IndexBounds | Assets/Chunk.cs:94 | z and y are the quotient digits of the linear index |
| SamplingCursor.IndexBeyond | Assets/Chunk.cs:108-111 | `z >= p` holds exactly when the linear index has reached `w*h*p` |
| SamplingCursor.IndexUnique | Assets/Chunk.cs:94 | distinct points have distinct linear indices |
| SamplingCursor.PointAtIndexOf | Assets/Chunk.cs:92-111 | every grid point is visited, at the step equal to its linear index |
| SamplingCursor.CursorIndex | Assets/Chunk.cs:94 | after k steps the write index `z*h*w + y*w + x` of the cursor is k (also IsoTerrain.cs:71) |
| SamplingCursor.SampleWritten | Assets/Chunk.cs:94 | writing the cursor point's sample at index k and nothing else turns the grid after k steps into the grid after k + 1 steps (also IsoTerrain.cs:71) |
| SamplingCursor.WrittenComplete | Assets/Chunk.cs:92-111 | after `w*h*p` steps every point holds the terrain density at origin plus the point |
| ChunkTerrain.Chunk.constructor | Assets/Chunk.cs:10-50 | the cursor at (0, 0, 0), both flags down, a zero-filled grid of 32·32·32 points and the given origin |
| ChunkTerrain.Chunk.Update | Assets/Chunk.cs:52-64 | before `generated`, one sampling frame of up to 4048 points; then one mesh extraction; after `spawned`, nothing; `frame` counts the first two |
| ChunkTerrain.Chunk.GenerateNoise | Assets/Chunk.cs:90-115 | samples `min(count + 4048, 32768)` points in all, each at its linear index, and sets `generated` exactly when the last is written |
| ChunkTerrain.Chunk.WriteSample | Assets/Chunk.cs:94 | the sample of the cursor's point goes to index `count` and nothing else changes |
| ChunkTerrain.Chunk.AdvanceCursor | Assets/Chunk.cs:96-108 | the cursor takes one step, and `z >= p` exactly when all points are sampled |
| ChunkTerrain.Chunk.GenerateMesh | Assets/Chunk.cs:117-151 | runs the mesher once on the fully sampled grid, hands its vertices and triangles to the mesh and sets `spawned` |
| ChunkTerrain.Chunk.FullySampled | Assets/Chunk.cs:108-119 | once generated, the grid handed to `Run` holds the terrain density of every point |
| ChunkTerrain.Chunk.Complete | Assets/Chunk.cs:159-161 | true only after exactly 9 sampling frames and one extraction; false while no mesh has been extracted |
| ChunkTerrain.SamplingFrames | Assets/Chunk.cs:12-24 | 8 frames of 4048 leave 384 of the 32768 points, and the ninth samples exactly those |
| IsoTerrainBlock.IsoTerrain.constructor | Assets/IsoTerrain.cs:9-41 | the cursor at (0, 0, 0), both flags down, a zero-filled grid of 64·64·64 points and the given origin |
| IsoTerrainBlock.IsoTerrain.Update | Assets/IsoTerrain.cs:43-53 | before `generated`, one sampling frame of up to 2048 points; then one mesh extraction; after `spawned`, nothing |
| IsoTerrainBlock.IsoTerrain.GenerateNoise | Assets/IsoTerrain.cs:67-92 | samples `min(count + 2048, 262144)` points in all, each at its linear index, and sets `generated` exactly when the last is written |
| IsoTerrainBlock.IsoTerrain.WriteSample | Assets/IsoTerrain.cs:71 | the sample of the cursor's point goes to index `count` and nothing else changes |
| IsoTerrainBlock.IsoTerrain.AdvanceCursor | Assets/IsoTerrain.cs:73-85 | the cursor takes one step, and `z >= p` exactly when all points are sampled |
| IsoTerrainBlock.IsoTerrain.GenerateMesh | Assets/IsoTerrain.cs:94-121 | runs the mesher once on the fully sampled grid, hands its vertices and triangles to the mesh and sets `spawned` |
| IsoTerrainBlock.IsoTerrain.FullySampled | Assets/IsoTerrain.cs:85-96 | once generated, the grid handed to `Run` holds the terrain density of every point |
| IsoTerrainBlock.IsoTerrain.SpawnedOnce | Assets/IsoTerrain.cs:43-53 | `spawned` holds only after exactly 128 sampling frames and one extraction |
| IsoTerrainBlock.SamplingFrames | Assets/IsoTerrain.cs:11-24 | 127 frames of 2048 do not fill the 262144 points; the 128th fills them with a full budget |
| WorldPosition.Wrap | Assets/WorldPos.cs:28-37 | `unchecked` arithmetic keeps a value congruent to the exact one modulo 2^32, in the `int` range |
| WorldPosition.WorldPos.Origin | Assets/WorldPos.cs:7-12 | the parameterless constructor gives (0, 0, 0) |
| WorldPosition.WorldPos.constructor | Assets/WorldPos.cs:14-19 | the fields are the arguments |
| WorldPosition.WorldPos.ToVector | Assets/WorldPos.cs:21-24 | each vector component is its field's value as an exact integral real (the C# `float` conversion rounds above 2^24; see Left out) |
| WorldPosition.WorldPos.GetHashCode | Assets/WorldPos.cs:26-38 | the three wrapped multiply-add steps give `47·227³ + 227²·x + 227·y + z` reduced to 32 bits |
| WorldPosition.WorldPos.Equals | Assets/WorldPos.cs:40-45 | true exactly when `227²·dx + 227·dy + dz` is a multiple of 2^32 |
| WorldPosition.WorldPos.SameAs | Assets/WorldPos.cs:40-45 | field-wise equality implies equal hashes and `Equals`, and is exactly equality of the exact-real `ToVector` |
| WorldPosition.WrapShift | Assets/WorldPos.cs:28-37 | adding a multiple of 2^32 does not change the wrapped value |
| WorldPosition.WrapOffset | Assets/WorldPos.cs:28-37 | the wrapped value differs from the exact one by a multiple of 2^32 |
| WorldPosition.WrapResidue | Assets/WorldPos.cs:28-37 | two values wrap alike iff they are congruent modulo 2^32 |
| WorldPosition.WrapMulAdd | Assets/WorldPos.cs:32-34 | wrapping an intermediate product or sum does not change the final wrapped result |
| WorldPosition.HashSteps | Assets/WorldPos.cs:30-36 | the stepwise hash equals the closed form |
| WorldPosition.EqualsByCongruence | Assets/WorldPos.cs:40-45 | two hashes agree iff the weighted coordinate difference is a multiple of 2^32 |
| WorldPosition.EqualsEquivalence | Assets/WorldPos.cs:40-45 | `Equals` is reflexive, symmetric and transitive |
| WorldPosition.EqualsCollision | Assets/WorldPos.cs:40-45 | (0, 1, 0) and (0, 0, 227) both hash to 549763128, so `Equals` holds between different positions |
| WorldScheduler.StartQueue | Assets/World.cs:20-31 | the queue built by `Start` has 6·3·6 = 108 entries |
| WorldScheduler.QueueEntryAt | Assets/World.cs:22-28 | the loop counters (x, z, y) put position (x, y, z) at index `18x + 3z + y` |
| WorldScheduler.QueueEntryIndex | Assets/World.cs:22-28 | entry i lies in the block and has index `18x + 3z + y` |
| WorldScheduler.StartQueueCovers | Assets/World.cs:22-31 | a position is queued iff it lies in the 6×3×6 block, at index `18x + 3z + y` |
| WorldScheduler.StartQueueDistinct | Assets/World.cs:22-31 | no position is queued twice |
| WorldScheduler.StartQueueOrder | Assets/World.cs:22-31 | positions are queued in lexicographic (x, z, y) order |
| WorldScheduler.CoordsOf | Assets/World.cs:12 | one coordinate triple per queued position |
| WorldScheduler.RoundToInt | Assets/Chunk.cs:38-40 | `Mathf.RoundToInt` is within 1/2 of its argument |
| WorldScheduler.RoundToIntExact | Assets/Chunk.cs:38-40 | integral values round to themselves |
| WorldScheduler.Placement | Assets/World.cs:51 | `pos.ToVector() * 30 - (15, 15, 15)` is `30·c − 15` on each axis |
| WorldScheduler.World.constructor | Assets/World.cs:10-18 | no queue and no chunk yet |
| WorldScheduler.World.Start | Assets/World.cs:20-34 | all 108 positions are queued in loop order, and the first chunk is created for the head, in its initial state (`Chunk.Initial`: valid, nothing sampled so the grid is all zeros, flags down, cursor at (0, 0, 0)) with the world's terrain and shared extractor |
| WorldScheduler.World.EnqueueSlice | Assets/World.cs:24-30 | one x iteration appends the 18 positions of slice x |
| WorldScheduler.World.EnqueueColumn | Assets/World.cs:26-29 | one z iteration appends the 3 positions of column (x, z) |
| WorldScheduler.World.Enqueue | Assets/World.cs:28 | `pending.Add(new WorldPos(x, y, z))` appends entry k of the queue |
| WorldScheduler.World.Update | Assets/World.cs:36-45 | when positions remain and the current chunk is `Complete`, the next chunk is created in its initial state (`Chunk.Initial`: valid, nothing sampled so the grid is all zeros, flags down, cursor at (0, 0, 0)) with the world's terrain and shared extractor and appended to `chunks`; otherwise nothing changes; the current chunk is replaced only after it has spawned its mesh |
| WorldScheduler.World.Instantiate | Assets/World.cs:51 | a fresh chunk in its initial state (`Chunk.Initial`: valid, nothing sampled so the grid is all zeros, flags down, cursor at (0, 0, 0)) with the world's terrain and shared extractor, whose origin is the rounded position |
| WorldScheduler.World.CreateChunk | Assets/World.cs:47-55 | the head of the queue is removed and its chunk created at `30·c − 15`, in its initial state (`Chunk.Initial`: valid, nothing sampled so the grid is all zeros, flags down, cursor at (0, 0, 0)) with the world's terrain and shared extractor; with an empty queue, nothing |
| WorldScheduler.ChunkBudget | Assets/World.cs:20-55 | created plus pending is always 108, so at most 108 chunks are ever created |

The frame counts are proved in the chunk classes' own contracts: `Chunk.Complete` ensures `noiseCalls == SAMPLING_CALLS` (9) and `meshCalls == 1` when it returns true, and `IsoTerrain.SpawnedOnce` the same with 128. `SamplingFrames` only checks the constant arithmetic behind those numbers.

## Left out

- The terrain functions `TerrainGenerator` and `GetNoise` (`Chunk.cs`, `IsoTerrain.cs`), and `Noise`, `ImprovedNoise` and `Mathf.PerlinNoise`, become the parameter `terrain`, a function from integer world coordinates to a density. `SimplexNoise` is not part of this model.
- Both `lerp` functions are unused, so they are not modelled.
- Floating point: densities, crossings and vertex coordinates are exact reals. The 1e-6 test is exact and there is no float rounding, so the model does not capture float error or a division by a `t` that rounds to zero.
- Unity plumbing is left out: `transform`, `MeshFilter`, `MeshRenderer`, `MeshCollider`, `RecalculateNormals`, `Optimize`, materials, mesh names, `Debug.Log`, `Time.time` and the per-chunk timing. The mesh handed to the renderer is a `Mesh` value stored in the chunk.
- The chunk's `Start` snapping of `transform.position` with `Mathf.RoundToInt` happens in `World.Instantiate`. The `Chunk` constructor receives the rounded integer origin.
- `SurfaceNets.Run` takes the dimensions as three integers rather than an `int[]`.
- SurfaceNetsExtractor.SurfaceNets.Run: requires `w*h*p <= data.Length` when every dimension is at least 2. With a shorter array the C# code throws `IndexOutOfRangeException`, and both callers always pass a `w*h*p` grid.
- SurfaceNetsExtractor.SurfaceNets.Run: takes `(w+1)*(h+1)`, `R[2]` and `R[2]*2` as unbounded integers. In C# they are unchecked 32-bit `int`s (`SurfaceNets.cs:100-117`), so for dimensions such as w = h = 32767 the buffer size wraps and the C# code resizes wrongly or throws. The model then promises a buffer of the exact size and a full mesh. Both callers pass 32 or 64, where no value comes near 2^31.
- SurfaceNetsExtractor.SurfaceNets.Run: does not state the contents of `vertexBuffer` after the call. `RunDeterministic` shows that entries left by an earlier call never influence the result.
- The static fields of `SurfaceNets` become one `SurfaceNets` object that every chunk uses. A caller that never ran the static constructor cannot be expressed.
- WorldPosition.WorldPos: the fields are `const`. The C# fields are public and mutable, but nothing in the core writes them after construction.
- WorldPosition.WorldPos.ToVector: the components are exact reals. C#'s `new Vector3(x, y, z)` (`WorldPos.cs:23`) converts each `int` to `float`, which rounds every magnitude above 2^24, so (16777216, 0, 0) and (16777217, 0, 0) give the same C# vector. `SameAs`'s match with vector equality therefore holds in the model only. The positions the core creates (the 0..5 lattice of `World.Start`) and `Placement`'s `30c − 15` are far below 2^24 and are unaffected.
- WorldPosition.WorldPos.Equals: modelled for a `WorldPos` argument only. With `null` the C# `Equals` throws a `NullReferenceException`, and an object of another type is compared by its own hash code.
- WorldScheduler.World.Start: requires `!started`, because Unity calls `Start` once per object.
- WorldScheduler.World.Update: single-flight is stated per call, as "the current chunk is replaced only after it has spawned". The per-frame `Update` calls that Unity makes on every chunk are not modelled, so there is no global invariant over the states of all earlier chunks.
- The concrete half-space grid (density `-y + 5` over 8×8×8) is not evaluated as a lemma. The general properties above cover its winding and emptiness claims.
- Concurrency: none exists in the core, which runs on Unity's main thread.

## Findings

| source | as written | input that shows it | evidently intended | confidence | as-written member | corrected member |
|---|---|---|---|---|---|---|
| Assets/WorldPos.cs:40-45 | `Equals` returns true whenever the two hash codes agree | `new WorldPos(0, 1, 0)` and `new WorldPos(0, 0, 227)` both hash to 549763128 | equality of the three coordinates, with the hash only as a consistent summary | medium, not executed | WorldPosition.EqualsCollision | WorldPosition.WorldPos.SameAs |

No other part of the core compares positions, so the rest of the model does not depend on which equality is used.
