/** Integer bit operations as Python defines them on non-negative numbers, and powers of two. */
module Bits {

  function Pow2(p: nat): (r: nat)
    ensures r >= 1
  {
    if p == 0 then 1 else 2 * Pow2(p - 1)
  }

  /** `n.bit_length()` */
  function BitLength(n: nat): nat {
    if n == 0 then 0 else 1 + BitLength(n / 2)
  }

  /** `a & b` */
  function And(a: nat, b: nat): nat {
    if a == 0 || b == 0 then 0 else (a % 2) * (b % 2) + 2 * And(a / 2, b / 2)
  }

  lemma {:induction false} BitLengthBounds(n: nat)
    requires n >= 1
    ensures BitLength(n) >= 1
    ensures Pow2(BitLength(n) - 1) <= n < Pow2(BitLength(n))
  {
    if n == 1 {
      assert BitLength(1) == 1 + BitLength(0);
    } else {
      BitLengthBounds(n / 2);
    }
  }

  lemma {:induction false} Pow2Monotone(p: nat, q: nat)
    requires p < q
    ensures 2 * Pow2(p) <= Pow2(q)
  {
    if p + 1 < q { Pow2Monotone(p, q - 1); }
  }

  /** A power of two strictly inside (2^p, 2^(p+1)) does not exist. */
  lemma Pow2Between(p: nat, q: nat)
    requires Pow2(p) <= Pow2(q) < 2 * Pow2(p)
    ensures p == q
  {
    if p < q { Pow2Monotone(p, q); }
    if q < p { Pow2Monotone(q, p); }
  }

  ghost predicate IsPower(m: nat) {
    exists p: nat :: m == Pow2(p)
  }

  /** Clearing the lowest set bit leaves nothing exactly for the powers of two. */
  lemma AndPredecessor(n: nat)
    requires n >= 1
    ensures And(n, n - 1) == 0 <==> IsPower(n)
  {
    if And(n, n - 1) == 0 { var p := ExponentOf(n); }
    if p: nat :| n == Pow2(p) { AndOfPower(p); }
  }

  lemma {:induction false} AndOfPower(p: nat)
    ensures And(Pow2(p), Pow2(p) - 1) == 0
  {
    if p > 0 {
      AndOfPower(p - 1);
      var n := Pow2(p);
      assert n / 2 == Pow2(p - 1) && (n - 1) / 2 == n / 2 - 1;
    }
  }

  lemma {:induction false} ExponentOf(n: nat) returns (p: nat)
    requires n >= 1 && And(n, n - 1) == 0
    ensures n == Pow2(p)
  {
    if n == 1 {
      p := 0;
    } else if n % 2 == 0 {
      assert (n - 1) / 2 == n / 2 - 1;
      var q := ExponentOf(n / 2);
      p := q + 1;
    } else {
      assert (n - 1) / 2 == n / 2;
      AndSelf(n / 2);
      assert false;
    }
  }

  lemma {:induction false} AndSelf(n: nat)
    ensures And(n, n) == n
  {
    if n > 0 { AndSelf(n / 2); }
  }
}
