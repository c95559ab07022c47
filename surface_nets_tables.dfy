/** The two process-wide tables of `SurfaceNets`: the 12 cube edges as pairs
    of corner numbers, and for each of the 256 corner sign masks the 12-bit
    mask of edges whose endpoints have different signs.  Corners are numbered
    0..7 by their coordinate bits: bit 0 is x, bit 1 is y, bit 2 is z. */
module SurfaceNetsTables {
  import opened Bits

  /** The number of edges of a cube. */
  const EDGES: nat := 12

  /** The contents of `cube_edges`, two corners per edge. */
  const CUBE_EDGES: seq<nat> :=
    [0, 1, 0, 2, 0, 4, 1, 3, 1, 5, 2, 3, 2, 6, 3, 7, 4, 5, 4, 6, 5, 7, 6, 7]

  /** What `initCubeEdges` appends for corner `i` and neighbour offset `j`. */
  function NeighbourPair(i: nat, j: nat): seq<nat>
  {
    var q := Xor(i, j);
    if i <= q then [i, q] else []
  }

  /** Everything `initCubeEdges` has appended once its outer loop is at corner
      `i` and its inner loop has done `t` of the offsets 1, 2, 4. */
  function EdgesBefore(i: nat, t: nat): seq<nat>
    requires t <= 3
    decreases i, t
  {
    if t > 0 then EdgesBefore(i, t - 1) + NeighbourPair(i, Pow2(t - 1))
    else if i == 0 then []
    else EdgesBefore(i - 1, 3)
  }

  /** The generating loops produce exactly the listed table. */
  lemma CubeEdgesGenerated()
    ensures EdgesBefore(8, 0) == CUBE_EDGES
  {
    assert EdgesBefore(0, 3) == [0, 1, 0, 2, 0, 4];
    assert EdgesBefore(1, 3) == [0, 1, 0, 2, 0, 4, 1, 3, 1, 5];
    assert EdgesBefore(2, 3) == [0, 1, 0, 2, 0, 4, 1, 3, 1, 5, 2, 3, 2, 6];
    assert EdgesBefore(3, 3) == [0, 1, 0, 2, 0, 4, 1, 3, 1, 5, 2, 3, 2, 6, 3, 7];
    assert EdgesBefore(4, 3) == [0, 1, 0, 2, 0, 4, 1, 3, 1, 5, 2, 3, 2, 6, 3, 7, 4, 5, 4, 6];
    assert EdgesBefore(5, 3) == [0, 1, 0, 2, 0, 4, 1, 3, 1, 5, 2, 3, 2, 6, 3, 7, 4, 5, 4, 6, 5, 7];
    assert EdgesBefore(6, 3) == [0, 1, 0, 2, 0, 4, 1, 3, 1, 5, 2, 3, 2, 6, 3, 7, 4, 5, 4, 6, 5, 7, 6, 7];
    assert EdgesBefore(7, 3) == [0, 1, 0, 2, 0, 4, 1, 3, 1, 5, 2, 3, 2, 6, 3, 7, 4, 5, 4, 6, 5, 7, 6, 7];
    assert EdgesBefore(8, 0) == EdgesBefore(7, 3);
  }

  /** Whatever `initCubeEdges` has written at any point is a prefix of the
      final table, so its writes stay inside the 24 entries. */
  lemma {:induction false} EdgesPrefix(i: nat, t: nat)
    requires t <= 3 && (i < 8 || (i == 8 && t == 0))
    ensures EdgesBefore(i, t) <= CUBE_EDGES
    decreases 8 - i, 3 - t
  {
    if i == 8 {
      CubeEdgesGenerated();
    } else if t < 3 {
      EdgesPrefix(i, t + 1);
      assert EdgesBefore(i, t + 1) == EdgesBefore(i, t) + NeighbourPair(i, Pow2(t));
    } else {
      EdgesPrefix(i + 1, 0);
    }
  }

  /** Each of the 12 edges joins a lower-numbered corner to a higher-numbered
      one. */
  lemma CubeEdgeShape(e: nat)
    requires e < 12
    ensures CUBE_EDGES[2 * e] < CUBE_EDGES[2 * e + 1] < 8
  {
  }

  /** The two corners of each edge differ in exactly one coordinate bit. */
  lemma {:induction false} CubeEdgeAxis(e: nat)
    requires e < 12
    ensures Xor(CUBE_EDGES[2 * e], CUBE_EDGES[2 * e + 1]) in {1, 2, 4}
  {
    if e < 6 { CubeEdgeAxisLow(e); } else { CubeEdgeAxisHigh(e); }
  }

  lemma CubeEdgeAxisLow(e: nat)
    requires e < 6
    ensures Xor(CUBE_EDGES[2 * e], CUBE_EDGES[2 * e + 1]) in {1, 2, 4}
  {
    if e == 0 { assert Xor(0, 1) == 1; }
    else if e == 1 { assert Xor(0, 2) == 2; }
    else if e == 2 { assert Xor(0, 4) == 4; }
    else if e == 3 { assert Xor(1, 3) == 2; }
    else if e == 4 { assert Xor(1, 5) == 4; }
    else { assert Xor(2, 3) == 1; }
  }

  lemma CubeEdgeAxisHigh(e: nat)
    requires 6 <= e < 12
    ensures Xor(CUBE_EDGES[2 * e], CUBE_EDGES[2 * e + 1]) in {1, 2, 4}
  {
    if e == 6 { assert Xor(2, 6) == 4; }
    else if e == 7 { assert Xor(3, 7) == 4; }
    else if e == 8 { assert Xor(4, 5) == 1; }
    else if e == 9 { assert Xor(4, 6) == 2; }
    else if e == 10 { assert Xor(5, 7) == 2; }
    else { assert Xor(6, 7) == 1; }
  }

  /** Edges 0, 1 and 2 leave corner 0 along x, y and z. */
  lemma CubeEdgeFromZero(i: nat)
    requires i < 3
    ensures CUBE_EDGES[2 * i] == 0 && CUBE_EDGES[2 * i + 1] == Pow2(i)
  {
    assert Pow2(1) == 2 && Pow2(2) == 4;
  }

  /** Edge `e` is crossed for sign mask `m`: exactly one endpoint is negative. */
  predicate Crossed(m: nat, e: nat)
    requires e < 12
  {
    Bit(m, CUBE_EDGES[2 * e]) != Bit(m, CUBE_EDGES[2 * e + 1])
  }

  /** What `initEdgeTable` has gathered in `em` for mask `m` after the first
      `t` edges. */
  function EdgeMaskPrefix(m: nat, t: nat): nat
    requires t <= 12
  {
    if t == 0 then 0
    else Or(EdgeMaskPrefix(m, t - 1), if Crossed(m, t - 1) then Pow2(t - 1) else 0)
  }

  /** The contents of `edge_table[m]`. */
  function EdgeTable(m: nat): nat
  {
    EdgeMaskPrefix(m, EDGES)
  }

  /** One round of the inner loop of `initEdgeTable`: testing the two corner
      bits of edge j/2 with `boolean(i & (1 << corner))` and or-ing in bit
      j/2 when they differ extends the prefix by one edge. */
  lemma EdgeMaskStep(m: nat, e: nat, em: nat)
    requires e < 12 && em == EdgeMaskPrefix(m, e)
    ensures Or(em, if Boolean(And(m, Pow2(CUBE_EDGES[2 * e]))) != Boolean(And(m, Pow2(CUBE_EDGES[2 * e + 1]))) then Pow2(e) else 0)
         == EdgeMaskPrefix(m, e + 1)
  {
    AndPow2(m, CUBE_EDGES[2 * e]);
    AndPow2(m, CUBE_EDGES[2 * e + 1]);
  }

  lemma {:induction false} EdgeMaskPrefixBound(m: nat, t: nat)
    requires t <= 12
    ensures EdgeMaskPrefix(m, t) < Pow2(12)
  {
    if t > 0 {
      EdgeMaskPrefixBound(m, t - 1);
      if Crossed(m, t - 1) {
        Pow2Monotone(t - 1, 12);
      }
      OrBound(EdgeMaskPrefix(m, t - 1), if Crossed(m, t - 1) then Pow2(t - 1) else 0, 12);
    }
  }

  lemma {:induction false} EdgeMaskPrefixBits(m: nat, t: nat, e: nat)
    requires t <= 12
    ensures Bit(EdgeMaskPrefix(m, t), e) <==> e < t && Crossed(m, e)
  {
    if t == 0 {
      BitOfZero(e);
    } else {
      EdgeMaskPrefixBits(m, t - 1, e);
      BitOfOrSingle(EdgeMaskPrefix(m, t - 1), t - 1, Crossed(m, t - 1), e);
    }
  }

  lemma {:induction false} Pow2Monotone(a: nat, b: nat)
    requires a < b
    ensures Pow2(a) < Pow2(b)
  {
    if b > a + 1 { Pow2Monotone(a, b - 1); }
  }

  /** Bit `e` of `edge_table[m]` is set exactly when edge `e` is crossed, and
      no bit from 12 up is ever set. */
  lemma EdgeTableBits(m: nat, e: nat)
    ensures EdgeTable(m) < Pow2(12)
    ensures Bit(EdgeTable(m), e) <==> e < 12 && Crossed(m, e)
  {
    EdgeMaskPrefixBound(m, EDGES);
    EdgeMaskPrefixBits(m, 12, e);
  }
  /** `boolean(edge_table[m] & (1 << e))` tests whether edge e is crossed. */
  lemma EdgeBitTest(m: nat, e: nat, edgeMask: nat)
    requires e < 12 && edgeMask == EdgeTable(m)
    ensures Crossed(m, e) <==> Boolean(And(edgeMask, Pow2(e)))
  {
    AndPow2(edgeMask, e);
    EdgeTableBits(m, e);
  }


  /** Complementing every corner sign crosses the same edges. */
  lemma CrossedComplement(m: nat, e: nat)
    requires m < 256 && e < 12
    ensures Crossed(255 - m, e) == Crossed(m, e)
  {
    CubeEdgeShape(e);
    ComplementBit(m, 8, CUBE_EDGES[2 * e]);
    ComplementBit(m, 8, CUBE_EDGES[2 * e + 1]);
  }

  lemma {:induction false} EdgeMaskPrefixComplement(m: nat, t: nat)
    requires m < 256 && t <= 12
    ensures EdgeMaskPrefix(255 - m, t) == EdgeMaskPrefix(m, t)
  {
    if t > 0 {
      EdgeMaskPrefixComplement(m, t - 1);
      CrossedComplement(m, t - 1);
    }
  }

  /** `edge_table[i] == edge_table[255 - i]`. */
  lemma EdgeTableComplement(m: nat)
    requires m < 256
    ensures EdgeTable(255 - m) == EdgeTable(m)
  {
    EdgeMaskPrefixComplement(m, EDGES);
  }

  /** A mask with no crossed edge has all eight corners of one sign: the
      cube's edges connect every corner to corner 0. */
  lemma UncrossedIsUniform(m: nat)
    requires m < 256
    requires forall e :: 0 <= e < 12 ==> !Crossed(m, e)
    ensures m == 0 || m == 255
  {
    // edges (0,1) (0,2) (0,4) (1,3) (1,5) (2,6) (3,7) reach every corner
    assert Bit(m, 1) == Bit(m, 0) by { assert !Crossed(m, 0); }
    assert Bit(m, 2) == Bit(m, 0) by { assert !Crossed(m, 1); }
    assert Bit(m, 4) == Bit(m, 0) by { assert !Crossed(m, 2); }
    assert Bit(m, 3) == Bit(m, 1) by { assert !Crossed(m, 3); }
    assert Bit(m, 5) == Bit(m, 1) by { assert !Crossed(m, 4); }
    assert Bit(m, 6) == Bit(m, 2) by { assert !Crossed(m, 6); }
    assert Bit(m, 7) == Bit(m, 3) by { assert !Crossed(m, 7); }
    forall k | 0 <= k < 8
      ensures Bit(m, k) == Bit(m, 0)
    {
      assert k in {0, 1, 2, 3, 4, 5, 6, 7};
    }
    assert Pow2(8) == 256;
    if Bit(m, 0) {
      AllBitsIsMax(m, 8);
    } else {
      NoBitsIsZero(m, 8);
    }
  }

  lemma {:induction false} UncrossedPrefixIsZero(m: nat, t: nat)
    requires t <= 12
    requires forall e :: 0 <= e < t ==> !Crossed(m, e)
    ensures EdgeMaskPrefix(m, t) == 0
  {
    if t > 0 { UncrossedPrefixIsZero(m, t - 1); }
  }

  lemma ZeroMaskUncrossed(e: nat)
    requires e < 12
    ensures !Crossed(0, e)
  {
    BitOfZero(CUBE_EDGES[2 * e]);
    BitOfZero(CUBE_EDGES[2 * e + 1]);
  }

  /** `edge_table[0] == edge_table[255] == 0`. */
  lemma UniformEdgeTable()
    ensures EdgeTable(0) == 0 && EdgeTable(255) == 0
  {
    forall e | 0 <= e < 12
      ensures !Crossed(0, e)
    {
      ZeroMaskUncrossed(e);
    }
    UncrossedPrefixIsZero(0, EDGES);
    EdgeTableComplement(0);
  }

  /** `edge_table[m]` is nonzero for every mask other than 0 and 0xFF. */
  lemma MixedEdgeTable(m: nat)
    requires m < 256 && m != 0 && m != 255
    ensures EdgeTable(m) != 0
  {
    if EdgeTable(m) == 0 {
      forall e | 0 <= e < 12
        ensures !Crossed(m, e)
      {
        EdgeTableBits(m, e);
        BitOfZero(e);
      }
      UncrossedIsUniform(m);
    }
  }

  /** Number of set bits among the low `t` bits of `a`. */
  function PopCount(a: nat, t: nat): nat
  {
    if t == 0 then 0 else PopCount(a, t - 1) + (if Bit(a, t - 1) then 1 else 0)
  }

  /** Number of crossed edges among the first `t`. */
  function CrossCount(m: nat, t: nat): nat
    requires t <= 12
  {
    if t == 0 then 0 else CrossCount(m, t - 1) + (if Crossed(m, t - 1) then 1 else 0)
  }

  /** The population count of `edge_table[m]` is the number of crossed edges. */
  lemma {:induction false} PopCountIsCrossCount(m: nat, t: nat)
    requires t <= 12
    ensures PopCount(EdgeTable(m), t) == CrossCount(m, t)
  {
    if t > 0 {
      PopCountIsCrossCount(m, t - 1);
      EdgeTableBits(m, t - 1);
    }
  }

  lemma {:induction false} CrossCountPositive(m: nat, t: nat, e: nat)
    requires e < t <= 12 && Crossed(m, e)
    ensures CrossCount(m, t) >= 1
  {
    if e < t - 1 { CrossCountPositive(m, t - 1, e); }
  }

  /** A cell whose mask is neither 0 nor 0xFF crosses at least one edge, so
      the average over crossed edges never divides by zero. */
  lemma MixedHasCrossing(m: nat)
    requires m < 256 && m != 0 && m != 255
    ensures PopCount(EdgeTable(m), EDGES) >= 1
  {
    if forall e :: 0 <= e < 12 ==> !Crossed(m, e) {
      UncrossedIsUniform(m);
    }
    var e :| 0 <= e < 12 && Crossed(m, e);
    CrossCountPositive(m, 12, e);
    PopCountIsCrossCount(m, EDGES);
  }
}
