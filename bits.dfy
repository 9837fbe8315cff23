/** Bitwise AND, OR and NOT on non-negative integers, defined one bit at a time (least
    significant bit first), with the facts the models use: masking is a remainder, OR of
    values in disjoint bit ranges is their sum, and complement within n bits is
    2^n - 1 - x. */
module Bits {
  import opened Words

  /** Bitwise AND (Rust `&`). */
  function And(a: nat, b: nat): nat
    decreases a
  {
    if a == 0 || b == 0 then 0
    else 2 * And(a / 2, b / 2) + (if a % 2 == 1 && b % 2 == 1 then 1 else 0)
  }

  /** Bitwise OR (Rust `|`). */
  function Or(a: nat, b: nat): nat
    decreases a + b
  {
    if a == 0 then b
    else if b == 0 then a
    else 2 * Or(a / 2, b / 2) + (if a % 2 == 1 || b % 2 == 1 then 1 else 0)
  }

  /** Bitwise complement of the low n bits of a (Rust `!` on an n-bit unsigned integer). */
  function Not(a: nat, n: nat): nat
  {
    if n == 0 then 0 else 2 * Not(a / 2, n - 1) + (1 - a % 2)
  }

  /** The binary digits of x below 2^(k+1): the parity, then the upper digits. */
  lemma Halves(x: int, k: nat)
    requires x >= 0
    ensures x % Pow2(k + 1) == 2 * ((x / 2) % Pow2(k)) + x % 2
    ensures x / 2 / Pow2(k) == x / Pow2(k + 1)
  {
    DivModSplit(x, 2, Pow2(k));
  }

  /** AND with a mask of k ones keeps the low k bits. */
  lemma {:induction false} AndMask(x: nat, k: nat)
    ensures And(x, Pow2(k) - 1) == x % Pow2(k)
  {
    if k == 0 {
      assert Pow2(k) - 1 == 0;
    } else if x == 0 {
      assert And(x, Pow2(k) - 1) == 0;
    } else {
      AndMask(x / 2, k - 1);
      AndMaskStep(x, k);
    }
  }

  lemma AndMaskStep(x: nat, k: nat)
    requires k > 0 && x > 0
    requires And(x / 2, Pow2(k - 1) - 1) == (x / 2) % Pow2(k - 1)
    ensures And(x, Pow2(k) - 1) == x % Pow2(k)
  {
    var p := Pow2(k - 1);
    var m := Pow2(k) - 1;
    assert m == 2 * (p - 1) + 1;
    DivModUnique(m, 2, p - 1, 1);
    assert And(x, m) == 2 * And(x / 2, p - 1) + x % 2;
    Halves(x, k - 1);
  }

  lemma {:induction false} AndBound(a: nat, b: nat)
    ensures And(a, b) <= a && And(a, b) <= b
    decreases a
  {
    if a != 0 && b != 0 {
      AndBound(a / 2, b / 2);
    }
  }

  /** OR of a multiple of 2^k with a value below 2^k is their sum. */
  lemma {:induction false} OrDisjoint(a: nat, b: nat, k: nat)
    requires a % Pow2(k) == 0 && b < Pow2(k)
    ensures Or(a, b) == a + b
  {
    if k > 0 && a != 0 && b != 0 {
      Halves(a, k - 1);
      assert a % 2 == 0 && (a / 2) % Pow2(k - 1) == 0;
      OrDisjoint(a / 2, b / 2, k - 1);
    }
  }

  lemma {:induction false} OrBound(a: nat, b: nat, n: nat)
    requires a < Pow2(n) && b < Pow2(n)
    ensures Or(a, b) < Pow2(n)
    decreases n
  {
    if n > 0 && a != 0 && b != 0 {
      OrBound(a / 2, b / 2, n - 1);
    }
  }

  /** Complement within n bits subtracts from the all-ones value. */
  lemma {:induction false} NotValue(a: nat, n: nat)
    requires a < Pow2(n)
    ensures Not(a, n) == Pow2(n) - 1 - a
  {
    if n > 0 {
      NotValue(a / 2, n - 1);
    }
  }
}
