/**
 * 32-bit masks. JavaScript's bitwise operators work on 32-bit integers; a
 * mask is represented exactly by the set of positions of its one bits, every
 * position below 32. `|` is union, `&` intersection, `^` symmetric
 * difference, and a mask is 0 when the set is empty. `1 << i` takes the shift
 * count modulo 32, so bit 32 is bit 0 again.
 */
module Bits32 {

  /** The positions of the one bits of a 32-bit integer. */
  type Mask = set<nat>

  ghost predicate Bounded(m: Mask)
  {
    forall i :: i in m ==> i < 32
  }

  /** `1 << i` in JavaScript. */
  function Bit(i: nat): (b: Mask)
    ensures b != {} && Bounded(b)
  {
    {i % 32}
  }

  function BitOr(a: Mask, b: Mask): Mask
  {
    a + b
  }

  function BitAnd(a: Mask, b: Mask): Mask
  {
    a * b
  }

  function BitXor(a: Mask, b: Mask): Mask
  {
    (a - b) + (b - a)
  }

  lemma BitsDisjoint(i: nat, j: nat)
    requires i < 32 && j < 32 && i != j
    ensures BitAnd(Bit(i), Bit(j)) == {}
  {
  }

  /** Past 32 distinct values the bits repeat: the 33rd value collides with the first. */
  lemma BitCollision()
    ensures Bit(32) == Bit(0)
  {
  }

  lemma XorOfDisjointIsOr(a: Mask, b: Mask)
    requires BitAnd(a, b) == {}
    ensures BitXor(a, b) == BitOr(a, b)
  {
    assert a - b == a && b - a == b by {
      forall x | x in a ensures x !in b { assert x !in BitAnd(a, b); }
    }
  }

  lemma MinusDisjoint(a: Mask, b: Mask)
    requires BitAnd(a, b) == {}
    ensures a - b == a
  {
    forall x | x in a ensures x !in b { assert x !in BitAnd(a, b); }
  }

  /** XOR-ing a mask with bits it does not have and then with the same bits again is the identity. */
  lemma XorUndoesOr(a: Mask, b: Mask)
    requires BitAnd(a, b) == {}
    ensures BitXor(BitOr(a, b), b) == a
  {
    MinusDisjoint(a, b);
    assert BitOr(a, b) - b == a - b;
    assert b - BitOr(a, b) == {};
  }

  /** `x ^= b` after `x & b` was non-zero clears exactly that bit. */
  lemma XorClears(a: Mask, i: nat)
    requires BitAnd(a, Bit(i)) != {}
    ensures BitXor(a, Bit(i)) == a - Bit(i)
  {
  }

  function Pow2(n: nat): (p: nat)
    ensures p >= 1
  {
    if n == 0 then 1 else 2 * Pow2(n - 1)
  }

  /** The unsigned value of the positions below n. */
  function Weight(m: Mask, n: nat): nat
  {
    if n == 0 then 0 else Weight(m, n - 1) + (if n - 1 in m then Pow2(n - 1) else 0)
  }

  /** The JavaScript number a mask is read back as: bit 31 is the sign bit. */
  function ToNumber(m: Mask): int
  {
    Weight(m, 31) - (if 31 in m then Pow2(31) else 0)
  }
}
