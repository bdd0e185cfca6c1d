/** Bitwise operations on non-negative integers, one binary digit at a time. */
module Bits {

  function And(a: nat, b: nat): nat
  {
    if a == 0 || b == 0 then 0
    else 2 * And(a / 2, b / 2) + if a % 2 == 1 && b % 2 == 1 then 1 else 0
  }

  function Or(a: nat, b: nat): nat
  {
    if a == 0 then b
    else if b == 0 then a
    else 2 * Or(a / 2, b / 2) + if a % 2 == 1 || b % 2 == 1 then 1 else 0
  }

  function Xor(a: nat, b: nat): nat
  {
    if a == 0 then b
    else if b == 0 then a
    else 2 * Xor(a / 2, b / 2) + if a % 2 != b % 2 then 1 else 0
  }

  /** The bits of `a` that are not in `b`. */
  function AndNot(a: nat, b: nat): nat
  {
    if a == 0 then 0
    else if b == 0 then a
    else 2 * AndNot(a / 2, b / 2) + if a % 2 == 1 && b % 2 == 0 then 1 else 0
  }

  lemma {:induction false} AndNotBound(a: nat, b: nat)
    ensures AndNot(a, b) <= a
  {
    if a == 0 || b == 0 {
    } else {
      AndNotBound(a / 2, b / 2);
    }
  }

  /** Flipping the bits of a contained mask removes them. */
  lemma {:induction false} XorRemoves(m: nat, v: nat)
    requires And(m, v) == m
    ensures Xor(v, m) == AndNot(v, m)
  {
    if m == 0 || v == 0 {
    } else {
      XorRemoves(m / 2, v / 2);
    }
  }

  lemma {:induction false} AndNotOr(v: nat, x: nat, b: nat)
    ensures AndNot(v, Or(x, b)) == AndNot(AndNot(v, x), b)
  {
    if v == 0 || x == 0 || b == 0 {
    } else {
      AndNotOr(v / 2, x / 2, b / 2);
      assert Or(x, b) / 2 == Or(x / 2, b / 2);
      assert AndNot(v, x) / 2 == AndNot(v / 2, x / 2);
    }
  }

  /** Removing bits that `w` does not have leaves what it has. */
  lemma {:induction false} AndAfterRemoving(w: nat, v: nat, x: nat)
    requires And(w, x) == 0
    ensures And(w, AndNot(v, x)) == And(w, v)
  {
    if w == 0 || v == 0 || x == 0 {
    } else {
      AndAfterRemoving(w / 2, v / 2, x / 2);
      assert AndNot(v, x) / 2 == AndNot(v / 2, x / 2);
    }
  }

  /** What is removed is gone. */
  lemma {:induction false} RemovedIsGone(w: nat, v: nat)
    ensures And(w, AndNot(v, w)) == 0
  {
    if w == 0 || v == 0 {
    } else {
      RemovedIsGone(w / 2, v / 2);
      assert AndNot(v, w) / 2 == AndNot(v / 2, w / 2);
    }
  }

  /** A mask contained in what is left was contained before. */
  lemma {:induction false} ContainedBefore(w: nat, v: nat, x: nat)
    requires And(w, AndNot(v, x)) == w
    ensures And(w, v) == w
  {
    if w == 0 || v == 0 || x == 0 {
    } else {
      assert AndNot(v, x) / 2 == AndNot(v / 2, x / 2);
      ContainedBefore(w / 2, v / 2, x / 2);
    }
  }

  /** Clearing the bits of a contained mask and setting them again. */
  lemma {:induction false} ClearThenSet(m: nat, v: nat)
    requires And(m, v) == m
    ensures Or(m, Xor(v, m)) == v
    ensures Xor(v, m) <= v
  {
    if m == 0 || v == 0 {
    } else {
      ClearThenSet(m / 2, v / 2);
    }
  }

  lemma {:induction false} OrAssociative(a: nat, b: nat, c: nat)
    ensures Or(Or(a, b), c) == Or(a, Or(b, c))
  {
    if a == 0 || b == 0 || c == 0 {
    } else {
      OrAssociative(a / 2, b / 2, c / 2);
      assert Or(a, b) / 2 == Or(a / 2, b / 2);
      assert Or(b, c) / 2 == Or(b / 2, c / 2);
    }
  }

  lemma AndZero(a: nat)
    ensures And(a, 0) == 0 && Or(a, 0) == a && Xor(a, 0) == a
  {
  }
}
