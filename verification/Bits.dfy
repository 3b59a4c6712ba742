/** Bytes, and exclusive or on numbers bit by bit. */
module Bits {
  type byte = x: int | 0 <= x < 256

  function Xor(a: nat, b: nat): nat
    decreases a + b
  {
    if a == 0 && b == 0 then 0
    else (if a % 2 == b % 2 then 0 else 1) + 2 * Xor(a / 2, b / 2)
  }

  function Pow2(k: nat): (p: nat)
    ensures p > 0
  {
    if k == 0 then 1 else 2 * Pow2(k - 1)
  }

  lemma {:induction false} XorZero(a: nat, b: nat)
    ensures Xor(a, b) == 0 <==> a == b
    decreases a + b
  {
    if a != 0 || b != 0 {
      XorZero(a / 2, b / 2);
    }
  }

  lemma Doubled(k: nat, a: nat)
    requires k > 0
    ensures Pow2(k) * a == 2 * (Pow2(k - 1) * a)
  {
  }

  lemma Halves(x: nat, k: nat, a: nat)
    requires k > 0
    ensures (x + Pow2(k) * a) % 2 == x % 2 && (x + Pow2(k) * a) / 2 == x / 2 + Pow2(k - 1) * a
  {
    Doubled(k, a);
  }

  lemma XorStep(a: nat, b: nat)
    ensures Xor(a, b) == (if a % 2 == b % 2 then 0 else 1) + 2 * Xor(a / 2, b / 2)
  {
  }

  /** Exclusive or works on the low bits and on the rest apart. */
  lemma {:induction false} XorSplit(x: nat, y: nat, k: nat, a: nat, b: nat)
    requires x < Pow2(k) && y < Pow2(k)
    ensures Xor(x, y) < Pow2(k)
    ensures Xor(x + Pow2(k) * a, y + Pow2(k) * b) == Xor(x, y) + Pow2(k) * Xor(a, b)
    decreases k
  {
    hide Xor;
    if k == 0 {
      XorZero(0, 0);
    } else {
      XorStep(x + Pow2(k) * a, y + Pow2(k) * b);
      XorStep(x, y);
      Halves(x, k, a);
      Halves(y, k, b);
      XorSplit(x / 2, y / 2, k - 1, a, b);
      Doubled(k, Xor(a, b));
    }
  }

  lemma {:induction false} XorCommutes(a: nat, b: nat)
    ensures Xor(a, b) == Xor(b, a)
    decreases a + b
  {
    if a != 0 || b != 0 {
      XorCommutes(a / 2, b / 2);
    }
  }

  /** Exclusive or can be undone. */
  lemma {:induction false} XorCancels(a: nat, b: nat)
    ensures Xor(Xor(a, b), b) == a
    decreases a + b
  {
    hide Xor;
    if a == 0 && b == 0 {
      XorZero(0, 0);
    } else {
      XorCancels(a / 2, b / 2);
      XorStep(a, b);
      XorStep(Xor(a, b), b);
    }
  }
}
