/** `World`: builds the queue of chunk positions of a 6×3×6 block and
    creates the chunks one at a time, each only once the previous one has
    finished, at 30 units per lattice step. */
module WorldScheduler {
  import opened WorldPosition
  import opened ChunkTerrain
  import opened SurfaceNetsExtractor

  const SIZE_X: int := 6
  const SIZE_Y: int := 3
  const SIZE_Z: int := 6
  const SPACING: int := 30

  /** Lattice coordinates (x, y, z). */
  type Coords = (int, int, int)

  /** Entry i of the queue `Start` builds, x outermost, then z, then y
      innermost: i = 18x + 3z + y. */
  function QueueEntry(i: int): Coords
  {
    (i / 18, i % 3, (i / 3) % 6)
  }

  /** The whole queue: 6 * 3 * 6 = 108 positions. */
  function StartQueue(): (q: seq<Coords>)
    ensures |q| == SIZE_X * SIZE_Y * SIZE_Z
  {
    seq(108, i => QueueEntry(i))
  }

  predicate InBlock(c: Coords)
  {
    0 <= c.0 < SIZE_X && 0 <= c.1 < SIZE_Y && 0 <= c.2 < SIZE_Z
  }

  /** The loop counters (x, z, y) of `Start` put position (x, y, z) at index
      18x + 3z + y. */
  lemma QueueEntryAt(x: int, y: int, z: int)
    requires InBlock((x, y, z))
    ensures QueueEntry(18 * x + 3 * z + y) == (x, y, z)
  {
    var i := 18 * x + 3 * z + y;
    DivMod(i, 18, x, 3 * z + y);
    DivMod(i, 3, 6 * x + z, y);
    DivMod(6 * x + z, 6, x, z);
  }

  /** The quotient and remainder of n by d are the unique q and r with
      n == d * q + r and 0 <= r < d. */
  lemma DivMod(n: int, d: int, q: int, r: int)
    requires 0 < d && 0 <= r < d && n == d * q + r
    ensures n / d == q && n % d == r
  {
    assert n == d * (n / d) + n % d;
    ZeroFactor(d, q - n / d);
  }

  /** A multiple of d strictly between -d and d is 0. */
  lemma ZeroFactor(d: int, t: int)
    requires 0 < d && -d < d * t < d
    ensures t == 0
  {
    if t > 0 {
      MulAtLeast(d, t);
    } else if t < 0 {
      MulAtLeast(d, -t);
    }
  }

  lemma MulAtLeast(d: int, t: int)
    requires 0 < d && 1 <= t
    ensures d <= d * t
  {
  }

  /** Every entry lies in the block, at the index its coordinates give. */
  lemma QueueEntryIndex(i: int)
    requires 0 <= i < 108
    ensures InBlock(QueueEntry(i))
    ensures i == 18 * QueueEntry(i).0 + 3 * QueueEntry(i).2 + QueueEntry(i).1
  {
  }

  /** The queue holds every position of the block exactly once. */
  lemma StartQueueCovers(c: Coords)
    ensures c in StartQueue() <==> InBlock(c)
    ensures InBlock(c) ==> StartQueue()[18 * c.0 + 3 * c.2 + c.1] == c
  {
    if InBlock(c) {
      var k := 18 * c.0 + 3 * c.2 + c.1;
      QueueEntryAt(c.0, c.1, c.2);
      assert 0 <= k < 108 && StartQueue()[k] == c;
    }
    if c in StartQueue() {
      var i :| 0 <= i < 108 && StartQueue()[i] == c;
      assert StartQueue()[i] == QueueEntry(i);
      QueueEntryIndex(i);
    }
  }

  lemma StartQueueDistinct(i: int, j: int)
    requires 0 <= i < j < 108
    ensures StartQueue()[i] != StartQueue()[j]
  {
    QueueEntryIndex(i);
    QueueEntryIndex(j);
  }

  /** Positions come in lexicographic order of (x, z, y). */
  lemma StartQueueOrder(i: int, j: int)
    requires 0 <= i < j < 108
    ensures var a, b := StartQueue()[i], StartQueue()[j];
      a.0 < b.0 || (a.0 == b.0 && (a.2 < b.2 || (a.2 == b.2 && a.1 < b.1)))
  {
    QueueEntryIndex(i);
    QueueEntryIndex(j);
  }

  /** The lattice coordinates of a list of positions. */
  function CoordsOf(ps: seq<WorldPos>): (cs: seq<Coords>)
    ensures |cs| == |ps|
  {
    seq(|ps|, i requires 0 <= i < |ps| => (ps[i].x as int, ps[i].y as int, ps[i].z as int))
  }

  /** `Mathf.RoundToInt`: the nearest integer, halves to the even one. */
  function RoundToInt(v: real): (n: int)
    ensures v - 0.5 <= n as real <= v + 0.5
  {
    var f := v.Floor;
    var d := v - f as real;
    if d < 0.5 then f else if d > 0.5 then f + 1 else if f % 2 == 0 then f else f + 1
  }

  lemma RoundToIntExact(n: int)
    ensures RoundToInt(n as real) == n
  {
  }

  /** Where `CreateChunk` puts the chunk of lattice position p:
      `p.ToVector() * spacing - (spacing/2f, spacing/2f, spacing/2f)`. */
  function Placement(p: WorldPos): (v: Vector3)
    ensures v == Vector3((SPACING * p.x as int - 15) as real, (SPACING * p.y as int - 15) as real,
                         (SPACING * p.z as int - 15) as real)
  {
    var u := p.ToVector();
    var half := SPACING as real / 2.0;
    Vector3(u.x * SPACING as real - half, u.y * SPACING as real - half, u.z * SPACING as real - half)
  }

  class World {
    /** The chunk created last, the only one that may still be working. */
    var temp: Chunk?
    var pending: seq<WorldPos>
    /** The prefab's terrain function and the extractor every chunk uses. */
    const terrain: (int, int, int) -> real
    const nets: SurfaceNets

    ghost var started: bool
    /** The positions whose chunks were created, and those chunks, in order. */
    ghost var created: seq<Coords>
    ghost var chunks: seq<Chunk>

    /** Before or during `Start`'s loops: no chunk created yet. */
    ghost predicate Unstarted()
      reads this, nets, nets.cubeEdges, nets.edgeTable
    {
      nets.Valid() && !started && created == [] && chunks == [] && temp == null
    }

    /** The queue discipline: the positions already created followed by
        those still pending make up the queue `Start` built, and every chunk
        sits at `30c - 15` for its position c. */
    ghost predicate Queued()
      reads this, nets, nets.cubeEdges, nets.edgeTable
    {
      nets.Valid() && started && created + CoordsOf(pending) == StartQueue() &&
      |chunks| == |created| && (|chunks| > 0 ==> temp == chunks[|chunks| - 1]) &&
      (forall i :: 0 <= i < |chunks| ==>
        chunks[i].originX == SPACING * created[i].0 - 15 && chunks[i].originY == SPACING * created[i].1 - 15 &&
        chunks[i].originZ == SPACING * created[i].2 - 15)
    }

    ghost predicate Valid()
      reads this, nets, nets.cubeEdges, nets.edgeTable
    {
      (!started ==> Unstarted() && pending == []) &&
      (started ==> Queued() && |created| >= 1)
    }

    /** The field initialisers: no queue and no chunk yet. */
    constructor (terrain: (int, int, int) -> real, nets: SurfaceNets)
      requires nets.Valid()
      ensures Valid() && !started && pending == [] && temp == null
      ensures this.terrain == terrain && this.nets == nets
    {
      this.terrain := terrain;
      this.nets := nets;
      temp := null;
      pending := [];
      started := false;
      created, chunks := [], [];
    }

    /** `Start`: enqueue the 108 positions of the block, x outermost, z in
        the middle and y innermost, then create the first chunk. */
    method Start()
      requires Valid() && !started
      modifies this
      ensures Valid() && started
      ensures created == [StartQueue()[0]] && CoordsOf(pending) == StartQueue()[1..]
      ensures fresh(temp) && temp.Initial() && temp.terrain == terrain && temp.nets == nets && chunks == [temp]
    {
      var x := 0;
      while x < SIZE_X
        invariant 0 <= x <= SIZE_X && CoordsOf(pending) == StartQueue()[..18 * x]
        invariant Unstarted()
      {
        EnqueueSlice(x);
        x := x + 1;
      }
      assert StartQueue()[..108] == StartQueue();
      started := true;
      CreateChunk();
    }

    /** The z and y loops of `Start` for one x. */
    method EnqueueSlice(x: int)
      requires Unstarted() && 0 <= x < SIZE_X && CoordsOf(pending) == StartQueue()[..18 * x]
      modifies this
      ensures Unstarted() && CoordsOf(pending) == StartQueue()[..18 * (x + 1)]
    {
      var z := 0;
      while z < SIZE_Z
        invariant 0 <= z <= SIZE_Z && CoordsOf(pending) == StartQueue()[..18 * x + 3 * z]
        invariant Unstarted()
      {
        EnqueueColumn(x, z);
        z := z + 1;
      }
    }

    /** The y loop of `Start` for one x and z. */
    method EnqueueColumn(x: int, z: int)
      requires Unstarted() && 0 <= x < SIZE_X && 0 <= z < SIZE_Z
      requires CoordsOf(pending) == StartQueue()[..18 * x + 3 * z]
      modifies this
      ensures Unstarted() && CoordsOf(pending) == StartQueue()[..18 * x + 3 * (z + 1)]
    {
      var y := 0;
      while y < SIZE_Y
        invariant 0 <= y <= SIZE_Y && CoordsOf(pending) == StartQueue()[..18 * x + 3 * z + y]
        invariant Unstarted()
      {
        var position := new WorldPos(x as int32, y as int32, z as int32);
        QueueEntryAt(x, y, z);
        Enqueue(position, 18 * x + 3 * z + y);
        y := y + 1;
      }
    }

    /** `pending.Add(position)` for the entry at index k of the queue. */
    method Enqueue(position: WorldPos, k: int)
      requires Unstarted() && 0 <= k < 108
      requires CoordsOf(pending) == StartQueue()[..k]
      requires (position.x as int, position.y as int, position.z as int) == QueueEntry(k)
      modifies this
      ensures Unstarted() && CoordsOf(pending) == StartQueue()[..k + 1]
      ensures pending == old(pending) + [position]
    {
      pending := pending + [position];
      assert CoordsOf(pending) == CoordsOf(old(pending)) + [QueueEntry(k)];
      assert StartQueue()[..k + 1] == StartQueue()[..k] + [StartQueue()[k]];
    }

    /** `Update`: when positions remain and the current chunk reports
        `Complete`, create the next chunk; otherwise do nothing. */
    method Update()
      requires Valid()
      modifies this
      ensures Valid()
      ensures |old(pending)| > 0 && old(temp.Complete()) ==>
        pending == old(pending)[1..] && created == old(created) + [old(CoordsOf(pending))[0]] &&
        fresh(temp) && temp.Initial() && temp.terrain == terrain && temp.nets == nets && chunks == old(chunks) + [temp]
      ensures !(|old(pending)| > 0 && old(temp.Complete())) ==> unchanged(this)
      ensures temp != old(temp) ==> old(temp) != null && old(temp.spawned)
    {
      if |pending| > 0 {
        if temp.Complete() {
          CreateChunk();
        }
      }
    }

    /** `Instantiate` of the chunk prefab at `position`; the chunk's `Start`
        snaps the position to integers with `Mathf.RoundToInt`. */
    method Instantiate(position: Vector3) returns (chunk: Chunk)
      requires nets.Valid()
      ensures fresh(chunk) && chunk.Initial() && chunk.terrain == terrain && chunk.nets == nets
      ensures chunk.originX == RoundToInt(position.x) && chunk.originY == RoundToInt(position.y)
      ensures chunk.originZ == RoundToInt(position.z)
    {
      chunk := new Chunk(RoundToInt(position.x), RoundToInt(position.y), RoundToInt(position.z), terrain, nets);
    }

    /** `CreateChunk`: remove the head of the queue and create its chunk at
        `30c - 15` on each axis; with an empty queue, nothing. */
    method CreateChunk()
      requires Queued()
      modifies this
      ensures Queued() && |created| >= |old(created)|
      ensures |old(pending)| > 0 ==>
        pending == old(pending)[1..] && created == old(created) + [old(CoordsOf(pending))[0]] &&
        fresh(temp) && temp.Initial() && temp.terrain == terrain && temp.nets == nets && chunks == old(chunks) + [temp]
      ensures |old(pending)| == 0 ==> unchanged(this)
    {
      if |pending| > 0 {
        var c := CoordsOf(pending)[0];
        RoundToIntExact(SPACING * c.0 - 15);
        RoundToIntExact(SPACING * c.1 - 15);
        RoundToIntExact(SPACING * c.2 - 15);
        temp := Instantiate(Placement(pending[0]));
        ghost var head := CoordsOf(pending)[0];
        assert CoordsOf(pending) == [head] + CoordsOf(pending[1..]);
        created := created + [head];
        chunks := chunks + [temp];
        pending := pending[1..];
      }
    }
  }

  /** 108 chunks in all: after `Start` 107 positions wait, each creation
      takes one, and none is created once the queue is empty. */
  lemma ChunkBudget(w: World)
    requires w.Valid() && w.started
    ensures |w.created| + |w.pending| == 108 && |w.chunks| <= 108
  {
    assert |w.created + CoordsOf(w.pending)| == 108;
  }
}
