/** `Chunk`: a 32×32×32 density chunk that samples its terrain function a
    bounded number of points per frame and, once every point is sampled,
    extracts its mesh exactly once. */
module ChunkTerrain {
  import opened SamplingCursor
  import opened SurfaceNetsGrid
  import opened SurfaceNetsSweep
  import opened SurfaceNetsExtractor

  const W: int := 32
  const H: int := 32
  const P: int := 32
  /** The per-frame sampling budget. */
  const ITERATIONS: int := 4048
  /** The number of grid points, `w*h*p`. */
  const CELLS: int := W * H * P
  /** The number of sampling frames, the smallest n with n * 4048 >= 32768. */
  const SAMPLING_CALLS: nat := 9

  class Chunk {
    var generated: bool
    var spawned: bool
    /** The cursor: the next grid point to sample. */
    var x: int
    var y: int
    var z: int
    const originX: int
    const originY: int
    const originZ: int
    /** `TerrainGenerator`, as a function of world coordinates. */
    const terrain: (int, int, int) -> real
    var datas: array<real>
    var frame: int
    /** The mesh handed to the renderer by `GenerateMesh`. */
    var mesh: Mesh
    /** The extractor's shared tables and vertex buffer. */
    const nets: SurfaceNets

    /** The number of points sampled so far. */
    ghost var count: nat
    ghost var noiseCalls: nat
    ghost var meshCalls: nat
    /** What the extraction produced: the mixed cells and the emitted faces. */
    ghost var cells: seq<Cell>
    ghost var faces: seq<Face>

    function Origin(): Point
    {
      Point(originX, originY, originZ)
    }

    /** The sampling state: the cursor has taken `count` steps, the grid
        holds their samples, and `generated` says that all were taken. */
    ghost predicate Sampled()
      reads this, datas
    {
      datas.Length == CELLS &&
      count <= CELLS && Point(x, y, z) == PointAt(W, H, count) &&
      datas[..] == Written(W, H, P, terrain, Origin(), count) &&
      (generated <==> count == CELLS)
    }

    ghost predicate Valid()
      reads this, datas, nets, nets.cubeEdges, nets.edgeTable
    {
      nets.Valid() && Sampled() &&
      count == Min(noiseCalls * ITERATIONS, CELLS) && noiseCalls <= SAMPLING_CALLS &&
      (spawned ==> generated) &&
      meshCalls == (if spawned then 1 else 0) &&
      (spawned ==>
        AllMixedCells(datas[..], W, H, P, cells) && Positions(datas[..], W, H, mesh.vertices, cells) &&
        AllFaces(datas[..], W, H, P, cells, mesh.triangles, faces))
    }

    /** The state right after construction: nothing sampled (so the grid is
        all zeros), both flags down, the cursor at (0, 0, 0). */
    ghost predicate Initial()
      reads this, datas, nets, nets.cubeEdges, nets.edgeTable
    {
      Valid() && !generated && !spawned && count == 0 && x == 0 && y == 0 && z == 0 && frame == 0
    }

    /** The field initialisers and `Start`: the cursor at (0, 0, 0), both
        flags down and a zero-filled grid of `w*h*p` points. */
    constructor (originX: int, originY: int, originZ: int, terrain: (int, int, int) -> real, nets: SurfaceNets)
      requires nets.Valid()
      ensures Valid() && fresh(datas)
      ensures !generated && !spawned && count == 0 && x == 0 && y == 0 && z == 0 && frame == 0
      ensures this.originX == originX && this.originY == originY && this.originZ == originZ
      ensures this.terrain == terrain && this.nets == nets
    {
      generated := false;
      spawned := false;
      x, y, z := 0, 0, 0;
      this.originX, this.originY, this.originZ := originX, originY, originZ;
      this.terrain := terrain;
      this.nets := nets;
      frame := 0;
      mesh := Mesh([], []);
      count, noiseCalls, meshCalls := 0, 0, 0;
      cells, faces := [], [];
      datas := new real[W * H * P](_ => 0.0);
      new;
      assert datas[..] == Written(W, H, P, terrain, Origin(), 0);
    }

    /** `Update`: sample while not generated, then extract the mesh once,
        then nothing. */
    method Update()
      requires Valid()
      modifies this, datas, nets, nets.vertexBuffer
      ensures Valid() && datas == old(datas)
      ensures !old(generated) ==>
        count == Min(old(count) + ITERATIONS, CELLS) && noiseCalls == old(noiseCalls) + 1 && !spawned
      ensures !old(generated) ==>
        mesh == old(mesh) && cells == old(cells) && faces == old(faces) && unchanged(nets) && unchanged(nets.vertexBuffer)
      ensures old(generated) && !old(spawned) ==> spawned && count == old(count) && meshCalls == 1
      ensures old(spawned) ==> unchanged(this) && unchanged(datas) && unchanged(nets) && unchanged(nets.vertexBuffer)
      ensures frame == old(frame) + (if old(spawned) then 0 else 1)
    {
      if !generated {
        GenerateNoise();
        frame := frame + 1;
      } else if !spawned {
        GenerateMesh();
        frame := frame + 1;
      }
    }

    /** `GenerateNoise`: up to `iterations` steps of the cursor, each writing
        the sample of its point at `z*h*w + y*w + x`; reaching z == p sets
        `generated` and ends the loop early. */
    method GenerateNoise()
      requires Valid() && !generated
      modifies this, datas
      ensures Valid() && datas == old(datas)
      ensures count == Min(old(count) + ITERATIONS, CELLS) && noiseCalls == old(noiseCalls) + 1
      ensures spawned == old(spawned) && meshCalls == old(meshCalls) && frame == old(frame)
      ensures mesh == old(mesh) && cells == old(cells) && faces == old(faces)
    {
      noiseCalls := noiseCalls + 1;
      ghost var start := count;
      var i := 0;
      while i < ITERATIONS
        invariant 0 <= i <= ITERATIONS && count == start + i < CELLS && !generated
        invariant Point(x, y, z) == PointAt(W, H, count)
        invariant datas[..] == Written(W, H, P, terrain, Origin(), count)
        invariant datas == old(datas) && spawned == old(spawned) && meshCalls == old(meshCalls)
        invariant noiseCalls == old(noiseCalls) + 1 && frame == old(frame)
        invariant mesh == old(mesh) && cells == old(cells) && faces == old(faces)
      {
        WriteSample();
        AdvanceCursor();
        if z >= P {
          generated := true;
          break;
        }
        i := i + 1;
      }
    }

    /** The write of the `GenerateNoise` loop: the sample of the cursor's
        point goes to index `z*h*w + y*w + x`, which is the number of points
        sampled so far. */
    method WriteSample()
      requires datas.Length == CELLS && count < CELLS
      requires Point(x, y, z) == PointAt(W, H, count)
      requires datas[..] == Written(W, H, P, terrain, Origin(), count)
      modifies datas
      ensures datas[..] == Written(W, H, P, terrain, Origin(), count + 1)
    {
      ghost var before := datas[..];
      CursorIndex(W, H, count, x, y, z);
      var i := z * H * W + y * W + x;
      datas[i] := terrain(originX + x, originY + y, originZ + z);
      assert datas[count] == Sample(terrain, Origin(), Point(x, y, z));
      forall j | 0 <= j < datas.Length && j != count
        ensures datas[..][j] == before[j]
      {
        assert datas[j] == old(datas[j]);
      }
      SampleWritten(W, H, P, terrain, Origin(), count, Point(x, y, z), before, datas[..]);
    }

    /** The cursor update of the `GenerateNoise` loop: `++x`, the wrap of x
        into y and the wrap of y into z; z reaches p exactly when every point
        has been sampled. */
    method AdvanceCursor()
      requires count < CELLS && Point(x, y, z) == PointAt(W, H, count)
      modifies this
      ensures count == old(count) + 1 && Point(x, y, z) == PointAt(W, H, count)
      ensures z >= P <==> count == CELLS
      ensures datas == old(datas) && generated == old(generated) && spawned == old(spawned)
      ensures noiseCalls == old(noiseCalls) && meshCalls == old(meshCalls) && frame == old(frame)
      ensures mesh == old(mesh) && cells == old(cells) && faces == old(faces)
    {
      StepAt(W, H, P, count);
      count := count + 1;
      x := x + 1;
      if x >= W {
        x := 0;
        y := y + 1;
      }
      if y >= H {
        y := 0;
        z := z + 1;
      }
    }

    /** `GenerateMesh`: run the extractor on the full grid, hand its vertices
        and triangles to the mesh and set `spawned`. */
    method GenerateMesh()
      requires Valid() && generated && !spawned
      modifies this, nets, nets.vertexBuffer
      ensures Valid() && spawned && meshCalls == 1
      ensures count == old(count) && noiseCalls == old(noiseCalls) && frame == old(frame)
      ensures datas == old(datas) && generated
    {
      ghost var d := datas[..];
      var m;
      m, cells, faces := nets.Run(datas, W, H, P);
      assert datas[..] == d;
      mesh := Mesh(m.vertices, m.triangles);
      meshCalls := meshCalls + 1;
      spawned := true;
    }

    /** Once `generated` is set, every grid point (x, y, z) of the chunk holds
        the terrain density at origin + (x, y, z), at index `z*h*w + y*w + x`:
        the grid handed to the extractor is completely sampled. */
    lemma FullySampled(c: Point)
      requires Sampled() && generated && InGrid(W, H, P, c)
      ensures 0 <= IndexOf(W, H, c) < datas.Length
      ensures datas[IndexOf(W, H, c)] == terrain(originX + c.x, originY + c.y, originZ + c.z)
    {
      WrittenComplete(W, H, P, terrain, Origin(), c);
      var i := IndexOf(W, H, c);
      assert count == W * H * P;
      assert datas[i] == datas[..][i] == Written(W, H, P, terrain, Origin(), W * H * P)[i];
    }

    /** `Complete`: whether the mesh has been extracted. */
    function Complete(): (done: bool)
      reads this, datas, nets, nets.cubeEdges, nets.edgeTable
      ensures Valid() && done ==> generated && count == CELLS && noiseCalls == SAMPLING_CALLS && meshCalls == 1
      ensures Valid() && !done ==> meshCalls == 0
    {
      spawned
    }
  }

  /** Sampling needs 9 frames: after 8 frames of 4048 points, 384 points
      remain, and the ninth frame samples exactly those before z reaches p. */
  lemma SamplingFrames()
    ensures CELLS == 32768
    ensures Min(8 * ITERATIONS, CELLS) < CELLS && Min(SAMPLING_CALLS * ITERATIONS, CELLS) == CELLS
    ensures Min(SAMPLING_CALLS * ITERATIONS, CELLS) - Min(8 * ITERATIONS, CELLS) == 384
  {
  }
}
