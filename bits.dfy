/** Bitwise arithmetic on non-negative integers, as the C# code uses it on
    small `int` masks: `1 << k`, `&`, `|`, `^` and the helper `boolean`.
    Every operation is defined digit by digit in base 2, so facts about single
    bits follow by induction on the bit position. */
module Bits {

  /** `1 << k` for a non-negative shift that does not overflow. */
  function Pow2(k: nat): (r: nat)
    ensures r >= 1
  {
    if k == 0 then 1 else 2 * Pow2(k - 1)
  }

  /** Bit `k` of `a` is set. */
  predicate Bit(a: nat, k: nat)
  {
    if k == 0 then a % 2 == 1 else Bit(a / 2, k - 1)
  }

  /** `a & b`: never more than either operand. */
  function And(a: nat, b: nat): (r: nat)
    ensures r <= a && r <= b
    decreases a + b
  {
    if a == 0 || b == 0 then 0
    else 2 * And(a / 2, b / 2) + (if a % 2 == 1 && b % 2 == 1 then 1 else 0)
  }

  /** `a | b`: at least either operand and at most their sum. */
  function Or(a: nat, b: nat): (r: nat)
    ensures a <= r && b <= r && r <= a + b
    decreases a + b
  {
    if a == 0 then b
    else if b == 0 then a
    else 2 * Or(a / 2, b / 2) + (if a % 2 == 1 || b % 2 == 1 then 1 else 0)
  }

  /** `a ^ b`: zero exactly when the operands are equal. */
  function Xor(a: nat, b: nat): (r: nat)
    ensures r <= a + b
    ensures r == 0 <==> a == b
    decreases a + b
  {
    if a == 0 then b
    else if b == 0 then a
    else 2 * Xor(a / 2, b / 2) + (if a % 2 != b % 2 then 1 else 0)
  }

  /** `SurfaceNets.boolean`: an int is true when it is positive; on the
      non-negative masks the code passes it, that is the C test `i != 0`. */
  predicate Boolean(i: int): (b: bool)
    ensures i >= 0 ==> (b <==> i != 0)
  {
    i > 0
  }

  lemma {:induction false} BitOfZero(k: nat)
    ensures !Bit(0, k)
  {
    if k > 0 { BitOfZero(k - 1); }
  }

  lemma {:induction false} BitOfPow2(t: nat, k: nat)
    ensures Bit(Pow2(t), k) <==> k == t
  {
    if k == 0 {
    } else if t == 0 {
      BitOfZero(k - 1);
    } else {
      BitOfPow2(t - 1, k - 1);
    }
  }

  /** Or-ing in bit t (or nothing) sets exactly that bit. */
  lemma BitOfOrSingle(a: nat, t: nat, on: bool, k: nat)
    ensures Bit(Or(a, if on then Pow2(t) else 0), k) <==> Bit(a, k) || (on && k == t)
  {
    var b := if on then Pow2(t) else 0;
    BitOfOr(a, b, k);
    if on { BitOfPow2(t, k); } else { BitOfZero(k); }
  }

  lemma {:induction false} BitOfOr(a: nat, b: nat, k: nat)
    ensures Bit(Or(a, b), k) <==> Bit(a, k) || Bit(b, k)
    decreases a + b
  {
    if a == 0 {
      BitOfZero(k);
    } else if b == 0 {
      BitOfZero(k);
    } else if k > 0 {
      BitOfOr(a / 2, b / 2, k - 1);
    }
  }

  lemma {:induction false} BitOfAnd(a: nat, b: nat, k: nat)
    ensures Bit(And(a, b), k) <==> Bit(a, k) && Bit(b, k)
    decreases a + b
  {
    if a == 0 || b == 0 {
      BitOfZero(k);
    } else if k > 0 {
      BitOfAnd(a / 2, b / 2, k - 1);
    }
  }

  lemma {:induction false} BitOfXor(a: nat, b: nat, k: nat)
    ensures Bit(Xor(a, b), k) <==> Bit(a, k) != Bit(b, k)
    decreases a + b
  {
    if a == 0 {
      BitOfZero(k);
    } else if b == 0 {
      BitOfZero(k);
    } else if k > 0 {
      BitOfXor(a / 2, b / 2, k - 1);
    }
  }

  /** Testing a single bit with a mask: `boolean(a & (1 << k))`. */
  lemma {:induction false} AndPow2(a: nat, k: nat)
    ensures And(a, Pow2(k)) == if Bit(a, k) then Pow2(k) else 0
    ensures Boolean(And(a, Pow2(k))) <==> Bit(a, k)
  {
    if a == 0 {
      BitOfZero(k);
    } else if k > 0 {
      AndPow2(a / 2, k - 1);
    }
  }

  /** A value below `2^n` has no bit at position `n` or above. */
  lemma {:induction false} BitAbove(a: nat, n: nat, k: nat)
    requires a < Pow2(n) && n <= k
    ensures !Bit(a, k)
  {
    if n == 0 {
      assert a == 0;
      BitOfZero(k);
    } else {
      BitAbove(a / 2, n - 1, k - 1);
    }
  }

  lemma {:induction false} OrBound(a: nat, b: nat, n: nat)
    requires a < Pow2(n) && b < Pow2(n)
    ensures Or(a, b) < Pow2(n)
    decreases a + b
  {
    if a != 0 && b != 0 {
      OrBound(a / 2, b / 2, n - 1);
    }
  }

  /** A value below `2^n` whose low `n` bits are all clear is zero. */
  lemma {:induction false} NoBitsIsZero(a: nat, n: nat)
    requires a < Pow2(n)
    requires forall k :: 0 <= k < n ==> !Bit(a, k)
    ensures a == 0
  {
    if n > 0 {
      assert !Bit(a, 0);
      forall k | 0 <= k < n - 1
        ensures !Bit(a / 2, k)
      {
        assert !Bit(a, k + 1);
      }
      NoBitsIsZero(a / 2, n - 1);
    }
  }

  /** A value below `2^n` whose low `n` bits are all set is `2^n - 1`. */
  lemma {:induction false} AllBitsIsMax(a: nat, n: nat)
    requires a < Pow2(n)
    requires forall k :: 0 <= k < n ==> Bit(a, k)
    ensures a == Pow2(n) - 1
  {
    if n > 0 {
      assert Bit(a, 0);
      forall k | 0 <= k < n - 1
        ensures Bit(a / 2, k)
      {
        assert Bit(a, k + 1);
      }
      AllBitsIsMax(a / 2, n - 1);
    }
  }

  /** `2^n - 1 - a` flips every one of the low `n` bits of `a`. */
  lemma {:induction false} ComplementBit(a: nat, n: nat, k: nat)
    requires a < Pow2(n) && k < n
    ensures Bit(Pow2(n) - 1 - a, k) <==> !Bit(a, k)
  {
    var q, r := a / 2, a % 2;
    assert a == 2 * q + r && Pow2(n) == 2 * Pow2(n - 1);
    var c := Pow2(n) - 1 - a;
    assert c == 2 * (Pow2(n - 1) - 1 - q) + (1 - r);
    assert c % 2 == 1 - r && c / 2 == Pow2(n - 1) - 1 - q;
    if k > 0 {
      ComplementBit(q, n - 1, k - 1);
    }
  }
}
