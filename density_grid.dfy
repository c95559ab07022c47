/** The flat density grid shared by the chunk generators and the extractor:
    `w * h * p` values in row-major order with x varying fastest. */
module DensityGrid {

  /** Linear index of grid point (x, y, z), written as the chunk code writes it. */
  function Index(w: int, h: int, x: int, y: int, z: int): int
  {
    z * h * w + y * w + x
  }

  /** Moving by (i, j, k) moves the linear index by i + j*w + k*w*h. */
  lemma IndexShift(w: int, h: int, x: int, y: int, z: int, i: int, j: int, k: int)
    ensures Index(w, h, x + i, y + j, z + k) == Index(w, h, x, y, z) + k * (h * w) + j * w + i
  {
    assert (z + k) * h * w == z * h * w + k * (h * w);
    assert (y + j) * w == y * w + j * w;
  }

  /** Every grid point of a w×h×p grid has its index inside `0 .. w*h*p - 1`. */
  lemma IndexInRange(w: int, h: int, p: int, x: int, y: int, z: int)
    requires 0 <= x < w && 0 <= y < h && 0 <= z < p
    ensures 0 <= Index(w, h, x, y, z) < w * h * p
  {
    assert 0 <= y * w <= (h - 1) * w by { MulMonotone(y, h - 1, w); }
    assert 0 <= z * (h * w) <= (p - 1) * (h * w) by { MulMonotone(z, p - 1, h * w); }
    assert (h - 1) * w + w == h * w;
    assert (p - 1) * (h * w) + h * w == w * h * p;
    assert z * h * w == z * (h * w);
  }

  lemma MulMonotone(a: int, b: int, c: int)
    requires 0 <= a <= b && 0 <= c
    ensures 0 <= a * c <= b * c
  {
  }
}
