/** Bitwise or on unsigned numbers, and the bits it is made of. */
module Bits {
  import opened Text

  /** The bitwise or of two numbers of at most n bits. */
  function Or(a: nat, b: nat): nat {
    if a == 0 then b
    else if b == 0 then a
    else 2 * Or(a / 2, b / 2) + if a % 2 == 1 || b % 2 == 1 then 1 else 0
  }

  predicate Bit(a: nat, i: nat) {
    if i == 0 then a % 2 == 1 else Bit(a / 2, i - 1)
  }

  lemma {:induction false} BitOfZero(i: nat)
    ensures !Bit(0, i)
  {
    if i > 0 {
      BitOfZero(i - 1);
    }
  }

  lemma {:induction false} BitOfOr(a: nat, b: nat, i: nat)
    ensures Bit(Or(a, b), i) <==> Bit(a, i) || Bit(b, i)
  {
    BitOfZero(i);
    if a != 0 && b != 0 && i > 0 {
      BitOfOr(a / 2, b / 2, i - 1);
    }
  }

  /** A number is determined by its bits. */
  lemma {:induction false} BitsDetermine(a: nat, b: nat)
    requires forall i: nat :: Bit(a, i) <==> Bit(b, i)
    ensures a == b
    decreases a + b
  {
    assert Bit(a, 0) <==> Bit(b, 0);
    if a != 0 || b != 0 {
      forall i: nat ensures Bit(a / 2, i) <==> Bit(b / 2, i) {
        assert Bit(a, i + 1) <==> Bit(b, i + 1);
      }
      BitsDetermine(a / 2, b / 2);
    }
  }

  lemma {:induction false} OrIdempotent(a: nat)
    ensures Or(a, a) == a
  {
    if a != 0 {
      OrIdempotent(a / 2);
    }
  }

  lemma OrAssociates(a: nat, b: nat, c: nat)
    ensures Or(a, Or(b, c)) == Or(Or(a, b), c)
  {
    forall i: nat ensures Bit(Or(a, Or(b, c)), i) <==> Bit(Or(Or(a, b), c), i) {
      BitOfOr(a, Or(b, c), i);
      BitOfOr(b, c, i);
      BitOfOr(Or(a, b), c, i);
      BitOfOr(a, b, i);
    }
    BitsDetermine(Or(a, Or(b, c)), Or(Or(a, b), c));
  }

  lemma OrZero(a: nat)
    ensures Or(a, 0) == a && Or(0, a) == a
  {
  }

  lemma {:induction false} OrFits(a: nat, b: nat, bound: nat)
    requires a < bound && b < bound && PowerOfTwo(bound)
    ensures Or(a, b) < bound
    decreases bound
  {
    if a != 0 && b != 0 {
      OrFits(a / 2, b / 2, bound / 2);
    }
  }

  predicate PowerOfTwo(n: nat) {
    n == 1 || (n % 2 == 0 && n != 0 && PowerOfTwo(n / 2))
  }

  /** The bitwise or of two flag words. */
  function Or32(a: uint32, b: uint32): (r: uint32)
    ensures r == Or(a, b)
  {
    Pow32();
    OrFits(a, b, UINT_MAX + 1);
    Or(a, b)
  }

  lemma Pow32()
    ensures PowerOfTwo(UINT_MAX + 1)
  {
    Pow24();
    assert PowerOfTwo(0x400_0000);
    assert PowerOfTwo(0x1000_0000);
    assert PowerOfTwo(0x4000_0000);
  }

  lemma Pow24()
    ensures PowerOfTwo(0x100_0000)
  {
    Pow16();
    assert PowerOfTwo(0x4_0000);
    assert PowerOfTwo(0x10_0000);
    assert PowerOfTwo(0x40_0000);
  }

  lemma Pow16()
    ensures PowerOfTwo(0x1_0000)
  {
    assert PowerOfTwo(0x4);
    assert PowerOfTwo(0x10);
    assert PowerOfTwo(0x40);
    assert PowerOfTwo(0x100);
    assert PowerOfTwo(0x400);
    assert PowerOfTwo(0x1000);
    assert PowerOfTwo(0x4000);
  }
}
