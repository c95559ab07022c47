/** `WorldPos`: an integer lattice position of a chunk, with the polynomial
    hash of its coordinates in wrapping 32-bit arithmetic and an equality
    that compares those hashes only. */
module WorldPosition {

  /** `int`: a signed 32-bit integer. */
  newtype int32 = v: int | -0x8000_0000 <= v < 0x8000_0000

  /** Two's-complement truncation to 32 bits, what `unchecked` arithmetic
      keeps of an exact result. */
  function Wrap(v: int): (r: int32)
    ensures (r as int - v) % 0x1_0000_0000 == 0
  {
    var m := (v + 0x8000_0000) % 0x1_0000_0000;
    (m - 0x8000_0000) as int32
  }

  /** Unity's `Vector3`, its float components taken as exact reals. */
  datatype Vector3 = Vector3(x: real, y: real, z: real)

  /** The closed form of the hash: `47*227^3 + 227^2*x + 227*y + z`
      reduced to 32 bits. */
  function HashOf(x: int32, y: int32, z: int32): int32
  {
    Wrap(47 * 227 * 227 * 227 + 227 * 227 * (x as int) + 227 * (y as int) + z as int)
  }

  class WorldPos {
    const x: int32
    const y: int32
    const z: int32

    /** `WorldPos()`: the origin. */
    constructor Origin()
      ensures x == 0 && y == 0 && z == 0
    {
      x, y, z := 0, 0, 0;
    }

    /** `WorldPos(x, y, z)`: the fields as given. */
    constructor (x: int32, y: int32, z: int32)
      ensures this.x == x && this.y == y && this.z == z
    {
      this.x, this.y, this.z := x, y, z;
    }

    /** `ToVector`: the position as a vector, one component per field. */
    function ToVector(): (v: Vector3)
      ensures v.x.Floor == x as int && v.y.Floor == y as int && v.z.Floor == z as int
      ensures v.x == v.x.Floor as real && v.y == v.y.Floor as real && v.z == v.z.Floor as real
    {
      Vector3(x as real, y as real, z as real)
    }

    function Hash(): int32
    {
      HashOf(x, y, z)
    }

    /** `GetHashCode`: start from 47 and, for each field, multiply by 227 and
        add the field (an `int` hashes to itself), wrapping at every
        operation. */
    method GetHashCode() returns (hash: int32)
      ensures hash == Hash()
    {
      hash := 47;
      hash := Wrap(Wrap(hash as int * 227) as int + x as int);
      hash := Wrap(Wrap(hash as int * 227) as int + y as int);
      hash := Wrap(Wrap(hash as int * 227) as int + z as int);
      HashSteps(x, y, z);
    }

    /** `Equals`: true exactly when the two hashes agree. */
    function Equals(other: WorldPos): (eq: bool)
      ensures eq <==> (227 * 227 * (x as int - other.x as int) + 227 * (y as int - other.y as int)
                       + (z as int - other.z as int)) % 0x1_0000_0000 == 0
    {
      EqualsByCongruence(x, y, z, other.x, other.y, other.z);
      Hash() == other.Hash()
    }

    /** Field-wise equality: the equality `Equals` stands in for. Equal
        positions hash alike and give the same vector, and the vector tells
        them apart. */
    function SameAs(other: WorldPos): (eq: bool)
      ensures eq ==> Hash() == other.Hash() && Equals(other)
      ensures eq <==> ToVector() == other.ToVector()
    {
      x == other.x && y == other.y && z == other.z
    }
  }

  /** Division by 2^32 leaves a unique remainder. */
  lemma ModOfMulAdd(k: int, r: int)
    requires 0 <= r < 0x1_0000_0000
    ensures (0x1_0000_0000 * k + r) % 0x1_0000_0000 == r
  {
    var n := 0x1_0000_0000 * k + r;
    assert n == 0x1_0000_0000 * (n / 0x1_0000_0000) + n % 0x1_0000_0000;
    assert 0x1_0000_0000 * (k - n / 0x1_0000_0000) == n % 0x1_0000_0000 - r;
  }

  /** Adding a multiple of 2^32 does not change the wrapped value. */
  lemma WrapShift(v: int, q: int)
    ensures Wrap(v + 0x1_0000_0000 * q) == Wrap(v)
  {
    var a := v + 0x8000_0000;
    var d := a / 0x1_0000_0000;
    var r := a % 0x1_0000_0000;
    assert a == 0x1_0000_0000 * d + r;
    assert a + 0x1_0000_0000 * q == 0x1_0000_0000 * (d + q) + r;
    ModOfMulAdd(d + q, r);
  }

  /** The wrapped value differs from the exact one by a multiple of 2^32. */
  lemma WrapOffset(v: int) returns (q: int)
    ensures Wrap(v) as int == v + 0x1_0000_0000 * q
  {
    var n := Wrap(v) as int - v;
    q := n / 0x1_0000_0000;
    assert n == 0x1_0000_0000 * q + n % 0x1_0000_0000;
  }

  /** Wrapping is a function of the residue modulo 2^32. */
  lemma WrapResidue(u: int, v: int)
    ensures Wrap(u) == Wrap(v) <==> (u - v) % 0x1_0000_0000 == 0
  {
    if (u - v) % 0x1_0000_0000 == 0 {
      var q := (u - v) / 0x1_0000_0000;
      assert u - v == 0x1_0000_0000 * q + (u - v) % 0x1_0000_0000;
      WrapShift(v, q);
      assert u == v + 0x1_0000_0000 * q;
    }
    if Wrap(u) == Wrap(v) {
      var qu := WrapOffset(u);
      var qv := WrapOffset(v);
      assert u - v == 0x1_0000_0000 * (qv - qu) + 0;
      ModOfMulAdd(qv - qu, 0);
    }
  }

  /** Wrapping an intermediate result changes nothing in what follows:
      `unchecked((a * 227) + b)` keeps the same bits as the exact value. */
  lemma WrapMulAdd(a: int, b: int)
    ensures Wrap(Wrap(a * 227) as int + b) == Wrap(a * 227 + b)
    ensures Wrap(Wrap(a) as int * 227) == Wrap(a * 227)
  {
    var q := WrapOffset(a * 227);
    assert Wrap(a * 227) as int + b == (a * 227 + b) + 0x1_0000_0000 * q;
    WrapShift(a * 227 + b, q);
    var t := WrapOffset(a);
    assert Wrap(a) as int * 227 == a * 227 + 0x1_0000_0000 * (227 * t);
    WrapShift(a * 227, 227 * t);
  }

  /** The three wrapping steps of `GetHashCode` give the closed form. */
  lemma HashSteps(x: int32, y: int32, z: int32)
    ensures Wrap(Wrap(Wrap(Wrap(Wrap(Wrap(47 * 227) as int + x as int) as int * 227) as int + y as int) as int * 227)
              as int + z as int) == HashOf(x, y, z)
  {
    var h1 := 47 * 227 + x as int;
    var h2 := h1 * 227 + y as int;
    var h3 := h2 * 227 + z as int;
    var a := Wrap(Wrap(47 * 227) as int + x as int);
    WrapMulAdd(47, x as int);
    assert a == Wrap(h1);
    var b := Wrap(Wrap(a as int * 227) as int + y as int);
    WrapMulAdd(h1, y as int);
    assert b == Wrap(h2);
    var c := Wrap(Wrap(b as int * 227) as int + z as int);
    WrapMulAdd(h2, z as int);
    assert c == Wrap(h3);
    assert h3 == 47 * 227 * 227 * 227 + 227 * 227 * (x as int) + 227 * (y as int) + z as int;
  }

  /** Two positions hash alike exactly when `227^2*dx + 227*dy + dz` is a
      multiple of 2^32. */
  lemma EqualsByCongruence(x: int32, y: int32, z: int32, x': int32, y': int32, z': int32)
    ensures HashOf(x, y, z) == HashOf(x', y', z') <==>
      (227 * 227 * (x as int - x' as int) + 227 * (y as int - y' as int) + (z as int - z' as int)) % 0x1_0000_0000 == 0
  {
    var u := 47 * 227 * 227 * 227 + 227 * 227 * (x as int) + 227 * (y as int) + z as int;
    var v := 47 * 227 * 227 * 227 + 227 * 227 * (x' as int) + 227 * (y' as int) + z' as int;
    WrapResidue(u, v);
    assert u - v == 227 * 227 * (x as int - x' as int) + 227 * (y as int - y' as int) + (z as int - z' as int);
  }

  /** `Equals` is an equivalence: it is equality of hashes. */
  lemma EqualsEquivalence(a: WorldPos, b: WorldPos, c: WorldPos)
    ensures a.Equals(a)
    ensures a.Equals(b) ==> b.Equals(a)
    ensures a.Equals(b) && b.Equals(c) ==> a.Equals(c)
  {
    EqualsByCongruence(a.x, a.y, a.z, a.x, a.y, a.z);
    EqualsByCongruence(a.x, a.y, a.z, b.x, b.y, b.z);
    EqualsByCongruence(b.x, b.y, b.z, a.x, a.y, a.z);
    EqualsByCongruence(b.x, b.y, b.z, c.x, c.y, c.z);
    EqualsByCongruence(a.x, a.y, a.z, c.x, c.y, c.z);
  }

  /** `Equals` also holds between different positions whose hashes collide:
      (0, 1, 0) and (0, 0, 227) both hash to 47*227^3 + 227. */
  lemma EqualsCollision(a: WorldPos, b: WorldPos)
    requires a.x == 0 && a.y == 1 && a.z == 0
    requires b.x == 0 && b.y == 0 && b.z == 227
    ensures a.Equals(b) && a.Hash() == b.Hash() == 549763128
    ensures !a.SameAs(b)
  {
    EqualsByCongruence(a.x, a.y, a.z, b.x, b.y, b.z);
  }
}
