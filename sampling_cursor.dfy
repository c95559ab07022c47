/** The sampling cursor shared by `Chunk` and `IsoTerrain`: an (x, y, z)
    position that fills a w×h×p density grid one point per step, x fastest,
    then y, then z, and the contents of the grid after k steps. */
module SamplingCursor {
  import opened DensityGrid

  /** A grid point, or the cursor that names the next point to sample. */
  datatype Point = Point(x: int, y: int, z: int)

  /** One step of the cursor: `++x`, then the wrap of x into y, then the
      wrap of y into z, applied one after the other. */
  function Advance(w: int, h: int, c: Point): Point
  {
    var x1 := c.x + 1;
    var x2 := if x1 >= w then 0 else x1;
    var y1 := if x1 >= w then c.y + 1 else c.y;
    if y1 >= h then Point(x2, 0, c.z + 1) else Point(x2, y1, c.z)
  }

  /** The cursor after k steps from (0, 0, 0). */
  function PointAt(w: int, h: int, k: nat): Point
  {
    if k == 0 then Point(0, 0, 0) else Advance(w, h, PointAt(w, h, k - 1))
  }

  /** x and y lie in their ranges; z may have reached p. */
  predicate InSlab(w: int, h: int, c: Point)
  {
    0 <= c.x < w && 0 <= c.y < h && 0 <= c.z
  }

  predicate InGrid(w: int, h: int, p: int, c: Point)
  {
    InSlab(w, h, c) && c.z < p
  }

  function IndexOf(w: int, h: int, c: Point): int
  {
    Index(w, h, c.x, c.y, c.z)
  }

  /** A step keeps x and y in range and moves the linear index
      `z*h*w + y*w + x` forward by exactly one. */
  lemma AdvanceIndex(w: int, h: int, c: Point)
    requires InSlab(w, h, c)
    ensures InSlab(w, h, Advance(w, h, c))
    ensures IndexOf(w, h, Advance(w, h, c)) == IndexOf(w, h, c) + 1
  {
    var r := Advance(w, h, c);
    if c.x + 1 < w {
      assert r == Point(c.x + 1, c.y, c.z);
    } else if c.y + 1 < h {
      assert r == Point(0, c.y + 1, c.z);
      assert (c.y + 1) * w == c.y * w + w;
    } else {
      assert r == Point(0, 0, c.z + 1);
      assert (c.z + 1) * h * w == c.z * h * w + h * w;
      assert (h - 1) * w == h * w - w;
    }
  }

  /** After k steps the cursor is at linear index k: the steps visit the
      indices 0, 1, 2, … in increasing order, each once. */
  lemma {:induction false} PointAtIndex(w: int, h: int, k: nat)
    requires 1 <= w && 1 <= h
    ensures InSlab(w, h, PointAt(w, h, k))
    ensures IndexOf(w, h, PointAt(w, h, k)) == k
  {
    if k > 0 {
      PointAtIndex(w, h, k - 1);
      AdvanceIndex(w, h, PointAt(w, h, k - 1));
    }
  }

  /** One step of the cursor from step k: it stays in the slab, and z
      reaches p exactly at the last step. */
  lemma StepAt(w: int, h: int, p: int, k: nat)
    requires 1 <= w && 1 <= h && 0 <= p && k < w * h * p
    ensures PointAt(w, h, k + 1) == Advance(w, h, PointAt(w, h, k))
    ensures InSlab(w, h, PointAt(w, h, k + 1))
    ensures PointAt(w, h, k + 1).z >= p <==> k + 1 == w * h * p
  {
    PointAtIndex(w, h, k + 1);
    IndexBeyond(w, h, p, PointAt(w, h, k + 1));
  }

  /** z and y are the quotient digits of the linear index. */
  lemma IndexBounds(w: int, h: int, c: Point)
    requires InSlab(w, h, c)
    ensures c.z * (h * w) <= IndexOf(w, h, c) < (c.z + 1) * (h * w)
    ensures c.y * w <= IndexOf(w, h, c) - c.z * (h * w) < (c.y + 1) * w
  {
    assert c.z * h * w == c.z * (h * w);
    assert c.y * w <= (h - 1) * w by { MulMonotone(c.y, h - 1, w); }
    assert (h - 1) * w + w == h * w;
  }

  /** A point of the slab past the last z-slice p - 1 is exactly one whose
      linear index has reached `w*h*p`. */
  lemma IndexBeyond(w: int, h: int, p: int, c: Point)
    requires InSlab(w, h, c) && 0 <= p
    ensures c.z >= p <==> IndexOf(w, h, c) >= w * h * p
  {
    IndexBounds(w, h, c);
    assert w * h * p == p * (h * w);
    if c.z >= p {
      MulMonotone(p, c.z, h * w);
    } else {
      MulMonotone(c.z + 1, p, h * w);
    }
  }

  /** Two slab points with the same linear index are the same point. */
  lemma IndexUnique(w: int, h: int, a: Point, b: Point)
    requires InSlab(w, h, a) && InSlab(w, h, b)
    requires IndexOf(w, h, a) == IndexOf(w, h, b)
    ensures a == b
  {
    IndexBounds(w, h, a);
    IndexBounds(w, h, b);
    if a.z < b.z {
      MulMonotone(a.z + 1, b.z, h * w);
    } else if b.z < a.z {
      MulMonotone(b.z + 1, a.z, h * w);
    }
    assert a.z == b.z;
    if a.y < b.y {
      MulMonotone(a.y + 1, b.y, w);
    } else if b.y < a.y {
      MulMonotone(b.y + 1, a.y, w);
    }
  }

  /** Every slab point is reached: after `IndexOf(c)` steps the cursor is at c. */
  lemma PointAtIndexOf(w: int, h: int, c: Point)
    requires InSlab(w, h, c)
    ensures IndexOf(w, h, c) >= 0 && PointAt(w, h, IndexOf(w, h, c)) == c
  {
    IndexBounds(w, h, c);
    MulMonotone(0, c.z, h * w);
    var k := IndexOf(w, h, c);
    PointAtIndex(w, h, k);
    IndexUnique(w, h, PointAt(w, h, k), c);
  }

  /** The density the terrain function gives grid point c of a chunk whose
      origin is `origin`. */
  function Sample(terrain: (int, int, int) -> real, origin: Point, c: Point): real
  {
    terrain(origin.x + c.x, origin.y + c.y, origin.z + c.z)
  }

  /** The grid after k steps: the first k linear indices hold the samples of
      the points the cursor visited, the rest still hold 0. */
  function Written(w: int, h: int, p: int, terrain: (int, int, int) -> real, origin: Point, k: nat): (g: seq<real>)
    requires 0 <= w * h * p
    ensures |g| == w * h * p
  {
    seq(w * h * p, (i: nat) => if i < k then Sample(terrain, origin, PointAt(w, h, i)) else 0.0)
  }

  /** Writing the sample of the cursor's point at index k extends the
      written prefix by one. */
  lemma WrittenStep(w: int, h: int, p: int, terrain: (int, int, int) -> real, origin: Point, k: nat)
    requires 0 <= w * h * p && k < w * h * p
    ensures Written(w, h, p, terrain, origin, k)[k := Sample(terrain, origin, PointAt(w, h, k))]
         == Written(w, h, p, terrain, origin, k + 1)
  {
  }

  /** The cursor after k steps sits at linear index k: the write of
      `GenerateNoise` goes to `z*h*w + y*w + x == k`. */
  lemma CursorIndex(w: int, h: int, k: nat, x: int, y: int, z: int)
    requires 1 <= w && 1 <= h && Point(x, y, z) == PointAt(w, h, k)
    ensures z * h * w + y * w + x == k
  {
    PointAtIndex(w, h, k);
  }

  /** Writing the sample of the cursor's point at index k, and nothing else,
      turns the grid after k steps into the grid after k + 1 steps. */
  lemma SampleWritten(w: int, h: int, p: int, terrain: (int, int, int) -> real, origin: Point, k: nat, c: Point,
                      before: seq<real>, after: seq<real>)
    requires 0 <= w * h * p && k < w * h * p && before == Written(w, h, p, terrain, origin, k)
    requires c == PointAt(w, h, k) && |after| == |before| && after[k] == Sample(terrain, origin, c)
    requires forall j :: 0 <= j < |after| && j != k ==> after[j] == before[j]
    ensures after == Written(w, h, p, terrain, origin, k + 1)
  {
    WrittenStep(w, h, p, terrain, origin, k);
    assert after == before[k := Sample(terrain, origin, c)];
  }

  /** Once k reaches `w*h*p`, every grid point (x, y, z) holds its own sample
      at index `z*h*w + y*w + x`. */
  lemma WrittenComplete(w: int, h: int, p: int, terrain: (int, int, int) -> real, origin: Point, c: Point)
    requires InGrid(w, h, p, c)
    ensures 0 <= IndexOf(w, h, c) < w * h * p
    ensures Written(w, h, p, terrain, origin, w * h * p)[IndexOf(w, h, c)] == Sample(terrain, origin, c)
  {
    IndexInRange(w, h, p, c.x, c.y, c.z);
    PointAtIndexOf(w, h, c);
  }

  function Min(a: int, b: int): int
  {
    if a <= b then a else b
  }
}
