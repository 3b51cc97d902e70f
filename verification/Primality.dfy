/** qvault/attack/cost.py: `_is_probable_prime`, Miller-Rabin over twelve fixed bases. */
module Primality {
  import opened NumberTheory

  const BASES: seq<int> := [2, 3, 5, 7, 11, 13, 17, 19, 23, 29, 31, 37]

  /** d * 2^i */
  function Doubled(d: nat, i: nat): nat {
    if i == 0 then d else 2 * Doubled(d, i - 1)
  }

  /** n passes Miller-Rabin to base a, for n - 1 == d * 2^r. */
  ghost predicate Passes(n: int, a: int, d: nat, r: nat)
    requires n >= 2
  {
    Pow(a, d) % n == 1 || exists i :: 0 <= i < r && PowerIsMinusOne(n, a, d, i)
  }

  ghost predicate PowerIsMinusOne(n: int, a: int, d: nat, i: nat)
    requires n >= 2
  {
    Pow(a, Doubled(d, i)) % n == n - 1
  }

  /** The odd part of m, and how often 2 divides it. */
  ghost function OddPart(m: nat): (nat, nat)
    requires m >= 1
  {
    if m % 2 == 0 then (OddPart(m / 2).0, OddPart(m / 2).1 + 1) else (m, 0)
  }

  /** What `_is_probable_prime` answers: a listed prime, or a number no base rejects. */
  ghost predicate ProbablePrime(n: int) {
    n in BASES
    || (n >= 2 && forall a :: a in BASES ==> n % a != 0 && Passes(n, a, OddPart(n - 1).0, OddPart(n - 1).1))
  }

  lemma {:induction false} OddPartSplits(m: nat)
    requires m >= 1
    ensures m == Doubled(OddPart(m).0, OddPart(m).1) && OddPart(m).0 % 2 == 1
  {
    if m % 2 == 0 { OddPartSplits(m / 2); }
  }

  /** Squaring moves from one power in the chain to the next. */
  lemma NextSquare(n: int, a: int, d: nat, i: nat, x: int)
    requires n >= 2 && x == Pow(a, Doubled(d, i)) % n
    ensures (x * x) % n == Pow(a, Doubled(d, i + 1)) % n
  {
    hide Pow;
    var e := Doubled(d, i);
    assert Doubled(d, i + 1) == e + e;
    PowAdd(a, e, e);
    ModMul(Pow(a, e), Pow(a, e), n);
  }

  method IsProbablePrime(n: int) returns (prime: bool)
    ensures prime <==> ProbablePrime(n)
  {
    hide Pow, Passes, Prime;
    if n < 2 { return false; }
    for k := 0 to |BASES|
      invariant forall j :: 0 <= j < k ==> n % BASES[j] != 0
    {
      if n % BASES[k] == 0 {
        ListedDivisor(n, k);
        return n == BASES[k];
      }
    }
    assert forall a :: a in BASES ==> n % a != 0;
    NotListed(n);

    var d, r := n - 1, 0;
    while d % 2 == 0
      invariant d >= 1 && r >= 0
      invariant OddPart(n - 1) == (OddPart(d).0, OddPart(d).1 + r)
      decreases d
    {
      d, r := d / 2, r + 1;
    }
    OddSplit(n, d, r);

    for k := 0 to |BASES|
      invariant forall j :: 0 <= j < k ==> Passes(n, BASES[j], d, r)
    {
      var a := BASES[k];
      var passed := PassesBase(n, a, d, r);
      if !passed {
        OneFailed(n, a, d, r);
        return false;
      }
    }
    AllPassed(n, d, r);
    prime := true;
  }

  lemma OneFailed(n: int, a: int, d: nat, r: nat)
    requires n >= 2 && n !in BASES && a in BASES && OddPart(n - 1) == (d, r) && !Passes(n, a, d, r)
    ensures !ProbablePrime(n)
  {
  }

  lemma AllPassed(n: int, d: nat, r: nat)
    requires n >= 2 && OddPart(n - 1) == (d, r)
    requires forall a :: a in BASES ==> n % a != 0
    requires forall j :: 0 <= j < |BASES| ==> Passes(n, BASES[j], d, r)
    ensures ProbablePrime(n)
  {
    forall a | a in BASES ensures Passes(n, a, d, r) {
      var j :| 0 <= j < |BASES| && BASES[j] == a;
    }
  }

  /** The body of the loop over the bases; false is the `else: return False`. */
  method PassesBase(n: int, a: int, d: nat, r: nat) returns (passed: bool)
    requires n >= 2 && r >= 1
    ensures passed <==> Passes(n, a, d, r)
  {
    var x := Pow(a, d) % n;
    PowZero(n, a, d);
    if x == 1 || x == n - 1 { return true; }
    for i := 1 to r
      invariant x == Pow(a, Doubled(d, i - 1)) % n
      invariant forall j :: 0 <= j < i ==> !PowerIsMinusOne(n, a, d, j)
    {
      NextSquare(n, a, d, i - 1, x);
      x := x * x % n;
      if x == n - 1 {
        assert PowerIsMinusOne(n, a, d, i);
        return true;
      }
    }
    passed := false;
  }

  lemma PowZero(n: int, a: int, d: nat)
    requires n >= 2
    ensures PowerIsMinusOne(n, a, d, 0) <==> Pow(a, d) % n == n - 1
  {
  }

  /** The first listed prime that divides n: n is listed exactly when it is that prime. */
  lemma ListedDivisor(n: int, k: nat)
    requires n >= 2 && k < |BASES| && n % BASES[k] == 0
    requires forall j :: 0 <= j < k ==> n % BASES[j] != 0
    ensures ProbablePrime(n) <==> n == BASES[k]
  {
    if n in BASES {
      var i :| 0 <= i < |BASES| && n == BASES[i];
      assert n % n == 0;
      BaseDividesBase(i, k);
    }
    assert BASES[k] in BASES;
  }

  lemma BaseDividesBase(i: nat, k: nat)
    requires i < |BASES| && k < |BASES| && BASES[i] % BASES[k] == 0
    ensures BASES[i] == BASES[k]
  {
    BasesArePrime(BASES[i]);
  }

  lemma NotListed(n: int)
    requires forall a :: a in BASES ==> n % a != 0
    requires n >= 2
    ensures n !in BASES && n % 2 == 1
  {
    assert n % n == 0;
    assert 2 in BASES by { assert BASES[0] == 2; }
  }

  lemma OddSplit(n: int, d: nat, r: nat)
    requires n >= 3 && n % 2 == 1 && d % 2 == 1 && OddPart(n - 1) == (OddPart(d).0, OddPart(d).1 + r)
    ensures OddPart(n - 1) == (d, r) && r >= 1
  {
  }

  // ---------------------------------------------------------------- theorems

  /** Without -1 on the way, a chain of squares that ends in 1 began in 1. */
  lemma {:induction false} ChainOfSquares(n: int, a: int, d: nat, r: nat)
    requires Prime(n) && Pow(a, Doubled(d, r)) % n == 1
    requires forall i :: 0 <= i < r ==> !PowerIsMinusOne(n, a, d, i)
    ensures Pow(a, d) % n == 1
  {
    if r > 0 {
      var x := Pow(a, Doubled(d, r - 1)) % n;
      NextSquare(n, a, d, r - 1, x);
      SquareRootsOfOne(n, x);
      assert !PowerIsMinusOne(n, a, d, r - 1);
      ChainOfSquares(n, a, d, r - 1);
    }
  }

  /** A prime passes Miller-Rabin to every base it does not divide. */
  lemma PrimePasses(n: int, a: nat)
    requires Prime(n) && n > 2 && a % n != 0
    ensures Passes(n, a, OddPart(n - 1).0, OddPart(n - 1).1)
  {
    var (d, r) := OddPart(n - 1);
    OddPartSplits(n - 1);
    Fermat(a, n);
    if forall i :: 0 <= i < r ==> !PowerIsMinusOne(n, a, d, i) {
      ChainOfSquares(n, a, d, r);
    }
  }

  // ---------------------------------------------------------------- exactly what passes

  /** `Doubled` is d times a power of two. */
  lemma {:induction false} DoubledIsTimes(d: nat, i: nat)
    ensures Doubled(d, i) == d * Pow(2, i)
  {
    if i > 0 {
      DoubledIsTimes(d, i - 1);
      assert d * (2 * Pow(2, i - 1)) == 2 * (d * Pow(2, i - 1));
    }
  }

  lemma {:induction false} OddPartUnique(d: nat, r: nat)
    requires d % 2 == 1
    ensures Doubled(d, r) >= 1 && OddPart(Doubled(d, r)) == (d, r)
  {
    if r > 0 { OddPartUnique(d, r - 1); }
  }

  /** Once 1, the squares stay 1. */
  lemma {:induction false} StaysOne(n: int, a: int, d: nat, i: nat, j: nat)
    requires n >= 2 && i <= j && Pow(a, Doubled(d, i)) % n == 1
    ensures Pow(a, Doubled(d, j)) % n == 1
    decreases j
  {
    hide Pow, Doubled;
    if i < j {
      StaysOne(n, a, d, i, j - 1);
      NextSquare(n, a, d, j - 1, 1);
    }
  }

  lemma MinusOneSquared(n: int)
    requires n >= 2
    ensures ((n - 1) * (n - 1)) % n == 1
  {
    assert (n - 1) * (n - 1) == n * (n - 2) + 1;
    RemainderUnique((n - 1) * (n - 1), n, n - 2, 1);
  }

  /** Modulo n, what is 1 when squared is 1 or -1 there. */
  ghost predicate TrivialRoot(n: int, a: int, e: nat)
    requires n >= 2
  {
    Pow(a, 2 * e) % n == 1 ==> Pow(a, e) % n == 1 || Pow(a, e) % n == n - 1
  }

  /** From the last square down: with trivial roots only, the chain meets -1 or began in 1. */
  lemma {:induction false} DownTheChain(n: int, a: int, d: nat, r: nat)
    requires n >= 2 && Pow(a, Doubled(d, r)) % n == 1 && forall i :: 0 <= i < r ==> TrivialRoot(n, a, Doubled(d, i))
    ensures Passes(n, a, d, r)
  {
    if r > 0 {
      assert TrivialRoot(n, a, Doubled(d, r - 1));
      if Pow(a, Doubled(d, r - 1)) % n == 1 {
        DownTheChain(n, a, d, r - 1);
      } else {
        assert PowerIsMinusOne(n, a, d, r - 1);
      }
    }
  }

  /** From where it met 1 or -1: every later square is 1, and none before it was. */
  lemma UpTheChain(n: int, a: int, d: nat, r: nat)
    requires n >= 3 && Passes(n, a, d, r)
    ensures Pow(a, Doubled(d, r)) % n == 1 && forall i :: 0 <= i < r ==> TrivialRoot(n, a, Doubled(d, i))
  {
    hide Pow;
    var met := 0;
    if Pow(a, d) % n == 1 {
      assert Doubled(d, 0) == d;
    } else {
      var m :| 0 <= m < r && PowerIsMinusOne(n, a, d, m);
      met := m + 1;
      MinusOneSquared(n);
      NextSquare(n, a, d, m, n - 1);
    }
    StaysOne(n, a, d, met, r);
    forall i | 0 <= i < r ensures TrivialRoot(n, a, Doubled(d, i)) {
      assert Doubled(d, i + 1) == 2 * Doubled(d, i);
      if i >= met {
        StaysOne(n, a, d, met, i);
      } else if i + 1 < met && Pow(a, Doubled(d, i + 1)) % n == 1 {
        StaysOne(n, a, d, i + 1, met - 1);
      }
    }
  }

  /** To this base n - 1 gives 1, and halving that exponent, r times, shows only trivial roots of 1. */
  ghost predicate OnlyTrivialRoots(n: int, a: int, d: nat, r: nat)
    requires n >= 2
  {
    Pow(a, n - 1) % n == 1 && forall i :: 0 <= i < r ==> TrivialRoot(n, a, Doubled(d, i))
  }

  lemma PassesExactly(n: int, a: int, d: nat, r: nat)
    requires n >= 3 && n - 1 == Doubled(d, r)
    ensures Passes(n, a, d, r) <==> OnlyTrivialRoots(n, a, d, r)
  {
    hide Pow, Passes, Doubled, TrivialRoot;
    if Passes(n, a, d, r) { UpTheChain(n, a, d, r); }
    if OnlyTrivialRoots(n, a, d, r) { DownTheChain(n, a, d, r); }
  }

  /**
   * Exactly the numbers accepted: the bases themselves, and of those no base divides the ones that to
   * every base show 1 at n - 1 and, halving that exponent down to its odd part, no root of 1 but 1 and -1.
   */
  lemma ProbableExactly(n: int, d: nat, r: nat)
    requires n >= 2 ==> d % 2 == 1 && n - 1 == Doubled(d, r)
    ensures ProbablePrime(n)
            <==> || n in BASES
                 || (n >= 2 && forall a :: a in BASES ==> n % a != 0 && OnlyTrivialRoots(n, a, d, r))
  {
    if n >= 2 && n !in BASES && forall a :: a in BASES ==> n % a != 0 {
      NotListed(n);
      OddPartUnique(d, r);
      hide Passes, OnlyTrivialRoots, Pow, Doubled, BASES;
      forall a | a in BASES ensures Passes(n, a, d, r) <==> OnlyTrivialRoots(n, a, d, r) { PassesExactly(n, a, d, r); }
    }
  }

  // ---------------------------------------------------------------- where it is exact

  lemma NotNegative(x: int, y: int)
    requires x >= 0 && y >= 0
    ensures x * y >= 0
  {
  }

  lemma MulAtLeast(b: nat, d: int, e: int)
    requires d >= b && e >= b
    ensures d * e >= b * b
  {
    NotNegative(d - b, e);
    NotNegative(e - b, b);
  }

  /** A composite below b * b has a divisor below b. */
  lemma SmallFactor(n: int, d: int, b: nat) returns (s: int)
    requires 2 <= d < n < b * b && n % d == 0
    ensures 2 <= s < b && s < n && n % s == 0
  {
    var e := n / d;
    assert n == d * e;
    MultipleOf(d, e, d);
    MultipleOf(e, d, e);
    if d >= b && e >= b { MulAtLeast(b, d, e); }
    s := if d < b then d else e;
  }

  lemma SmallDivisor(n: int, s: int, e: int)
    requires 2 <= s < 7 && n == s * e
    ensures n % 2 == 0 || s == 3 || s == 5
  {
    if s == 2 {
      assert n == 2 * e;
    } else if s == 4 {
      assert n == 2 * (2 * e);
    } else if s == 6 {
      assert n == 2 * (3 * e);
    }
  }

  /** Below 49 a number that 2, 3 and 5 do not divide is prime. */
  lemma SmallPrime(n: int)
    requires 2 <= n < 49 && (n % 2 != 0 || n == 2) && (n % 3 != 0 || n == 3) && (n % 5 != 0 || n == 5)
    ensures Prime(n)
  {
    if d :| 2 <= d < n && n % d == 0 {
      var s := SmallFactor(n, d, 7);
      SmallDivisor(n, s, n / s);
    }
  }

  lemma BasesArePrime(a: int)
    requires a in BASES
    ensures Prime(a)
  {
    SmallPrime(a);
  }

  /** Two different primes do not divide each other. */
  lemma PrimesApart(p: int, q: int)
    requires Prime(p) && Prime(q) && p != q
    ensures p % q != 0
  {
    if p < q { RemainderUnique(p, q, 0, p); }
  }

  /** No prime is ever rejected. */
  lemma PrimesAreProbable(n: int)
    requires Prime(n)
    ensures ProbablePrime(n)
  {
    if n !in BASES {
      BasesArePrime(2);
      forall a | a in BASES
        ensures n % a != 0 && Passes(n, a, OddPart(n - 1).0, OddPart(n - 1).1)
      {
        BasesArePrime(a);
        PrimesApart(n, a);
        PrimesApart(a, n);
        PrimePasses(n, a);
      }
    }
  }

  /** Below 41 * 41 a number that no base divides is prime. */
  lemma NoBaseDivides(n: int)
    requires 2 <= n < 1681 && forall a :: a in BASES ==> n % a != 0
    ensures Prime(n)
  {
    if !Prime(n) {
      var d :| 2 <= d < n && n % d == 0;
      var s := SmallFactor(n, d, 41);
      var p := PrimeDivisor(s);
      assert n == s * (n / s);
      MultipleOf(s, n / s, p);
      assert n % p == 0;
      hide BASES, Prime;
      PrimesBelow41(p);
    }
  }

  lemma PrimesBelow41(p: int)
    requires Prime(p) && p < 41
    ensures p in BASES
  {
    assert p == 2 || p % 2 != 0;
    assert p == 3 || p % 3 != 0;
    assert p == 5 || p % 5 != 0;
    hide Prime;
    assert BASES[0] == 2 && BASES[1] == 3 && BASES[2] == 5 && BASES[3] == 7 && BASES[4] == 11 && BASES[5] == 13;
    assert BASES[6] == 17 && BASES[7] == 19 && BASES[8] == 23 && BASES[9] == 29 && BASES[10] == 31 && BASES[11] == 37;
  }

  /** Below 41 * 41 the answer is exactly primality. */
  lemma ProbableBelow1681(n: int)
    requires n < 1681
    ensures ProbablePrime(n) <==> Prime(n)
  {
    if Prime(n) { PrimesAreProbable(n); }
    if ProbablePrime(n) {
      if n in BASES {
        BasesArePrime(n);
      } else {
        NoBaseDivides(n);
      }
    }
  }
}
