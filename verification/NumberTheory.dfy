/** The arithmetic that the factoring code rests on: remainders, primes, powers, Fermat's little theorem. */
module NumberTheory {

  // ---------------------------------------------------------------- remainders

  lemma {:induction false} Gap(n: int, a: int, b: int)
    requires n > 0 && a > b
    ensures n * a >= n * b + n
    decreases a - b
  {
    assert n * a == n * (a - 1) + n;
    if a - 1 > b { Gap(n, a - 1, b); }
  }

  /** Quotient and remainder are unique. */
  lemma RemainderUnique(x: int, n: int, q: int, r: int)
    requires n > 0 && 0 <= r < n && x == n * q + r
    ensures x % n == r && x / n == q
  {
    if x / n > q { Gap(n, x / n, q); }
    if x / n < q { Gap(n, q, x / n); }
  }

  lemma ModShift(x: int, k: int, n: int)
    requires n > 0
    ensures (x + k * n) % n == x % n
  {
    assert x + k * n == n * (x / n + k) + x % n;
    RemainderUnique(x + k * n, n, x / n + k, x % n);
  }

  /** Two numbers have the same remainder exactly when they differ by a multiple. */
  lemma Congruent(a: int, b: int, n: int)
    requires n > 0
    ensures a % n == b % n <==> (a - b) % n == 0
  {
    if a % n == b % n {
      assert a - b == 0 + (a / n - b / n) * n;
      ModShift(0, a / n - b / n, n);
    }
    if (a - b) % n == 0 {
      assert a == b + ((a - b) / n) * n;
      ModShift(b, (a - b) / n, n);
    }
  }

  lemma ModMul(a: int, b: int, n: int)
    requires n > 0
    ensures (a * b) % n == ((a % n) * (b % n)) % n
  {
    var p, r := a / n, a % n;
    var q, s := b / n, b % n;
    assert a * b == r * s + (p * b + r * q) * n by {
      assert a * b == (n * p + r) * b;
      assert (n * p + r) * b == n * p * b + r * (n * q + s);
    }
    ModShift(r * s, p * b + r * q, n);
  }

  lemma ModAdd(a: int, b: int, n: int)
    requires n > 0
    ensures (a + b) % n == ((a % n) + (b % n)) % n
  {
    assert a + b == a % n + b % n + (a / n + b / n) * n;
    ModShift(a % n + b % n, a / n + b / n, n);
  }

  /** A remainder modulo a multiple keeps the remainder modulo the divisor. */
  lemma ModMod(x: int, n: int, p: int)
    requires p > 0 && n > 0 && n % p == 0
    ensures (x % n) % p == x % p
  {
    assert n == p * (n / p);
    assert x == x % n + ((n / p) * (x / n)) * p by {
      assert n * (x / n) == p * (n / p) * (x / n);
    }
    ModShift(x % n, (n / p) * (x / n), p);
  }

  lemma MultipleOf(a: int, b: int, n: int)
    requires n > 0 && a % n == 0
    ensures (a * b) % n == 0
  {
    assert a * b == 0 + (a / n * b) * n;
    ModShift(0, a / n * b, n);
  }

  // ---------------------------------------------------------------- primes

  ghost predicate Prime(p: int)
    ensures Prime(p) ==> p >= 2
  {
    p >= 2 && forall d :: 2 <= d < p ==> p % d != 0
  }

  /** Euclid's lemma: a prime that divides a product divides a factor. */
  lemma PrimeDivides(p: int, a: int, b: int)
    requires Prime(p) && (a * b) % p == 0 && a % p != 0
    ensures b % p == 0
  {
    hide Prime;
    var r := a % p;
    ModMul(a, b, p);
    ModMul(r, b, p);
    RemainderUnique(r, p, 0, r);
    PrimeDividesSmall(p, r, b);
  }

  lemma {:induction false} PrimeDividesSmall(p: int, a: int, b: int)
    requires Prime(p) && 1 <= a < p && (a * b) % p == 0
    ensures b % p == 0
    decreases a
  {
    if a > 1 {
      var q, r := p / a, p % a;
      assert p == a * q + r && 1 <= r < a;
      assert r * b == 0 + p * b - q * (a * b) by { assert r * b == (p - a * q) * b; }
      MultipleOf(a * b, -q, p);
      ModShift(-q * (a * b), b, p);
      assert r * b == -q * (a * b) + b * p;
      assert (a * b) * -q == -q * (a * b);
      PrimeDividesSmall(p, r, b);
    }
  }

  /** Every number above one has a prime divisor, and it divides what the number divides. */
  lemma {:induction false} PrimeDivisor(n: int) returns (p: int)
    requires n >= 2
    ensures Prime(p) && p <= n && n % p == 0
    decreases n
  {
    if Prime(n) {
      p := n;
    } else {
      var d :| 2 <= d < n && n % d == 0;
      p := PrimeDivisor(d);
      assert n == d * (n / d);
      MultipleOf(d, n / d, p);
    }
  }

  /** Modulo a prime only 1 and -1 square to 1. */
  lemma SquareRootsOfOne(p: int, x: int)
    requires Prime(p) && 0 <= x < p && (x * x) % p == 1
    ensures x == 1 || x == p - 1
  {
    hide Prime;
    assert (x - 1) * (x + 1) == x * x - 1;
    RemainderUnique(1, p, 0, 1);
    Congruent(x * x, 1, p);
    if (x - 1) % p == 0 {
      SmallMultiple(p, x - 1);
    } else {
      PrimeDivides(p, x - 1, x + 1);
      SmallMultiple(p, x + 1);
    }
  }

  /** The only multiples of p this close to zero are zero and p. */
  lemma SmallMultiple(p: int, y: int)
    requires p >= 2 && -1 <= y <= p && y % p == 0
    ensures y == 0 || y == p
  {
    if y == -1 { RemainderUnique(-1, p, -1, p - 1); }
    if 0 < y < p { RemainderUnique(y, p, 0, y); }
  }

  // ---------------------------------------------------------------- powers

  function Pow(a: int, e: nat): int {
    if e == 0 then 1 else a * Pow(a, e - 1)
  }

  lemma {:induction false} PowAdd(a: int, d: nat, e: nat)
    ensures Pow(a, d + e) == Pow(a, d) * Pow(a, e)
  {
    if d > 0 {
      PowAdd(a, d - 1, e);
      assert Pow(a, d + e) == a * Pow(a, d - 1 + e);
      assert a * (Pow(a, d - 1) * Pow(a, e)) == a * Pow(a, d - 1) * Pow(a, e);
    }
  }

  // ---------------------------------------------------------------- Fermat's little theorem

  /** Binomial coefficients, by Pascal's rule. */
  ghost function Choose(n: nat, k: nat): nat {
    if k == 0 then 1 else if n == 0 then 0 else Choose(n - 1, k - 1) + Choose(n - 1, k)
  }

  lemma {:induction false} ChooseAbove(n: nat, k: nat)
    requires k > n
    ensures Choose(n, k) == 0
  {
    if n > 0 {
      ChooseAbove(n - 1, k - 1);
      ChooseAbove(n - 1, k);
    }
  }

  /** Adding up two absorbed coefficients, as Pascal's rule does. */
  lemma AbsorbStep(n: int, k: int, x: int, y: int, z: int, v: int)
    requires x == z + v && (k - 1) * x == (n - 1) * z && k * y == (n - 1) * v
    ensures k * (x + y) == n * x
  {
    assert k * (x + y) == (k - 1) * x + x + k * y;
    assert (n - 1) * z + (n - 1) * v == (n - 1) * (z + v);
  }

  lemma {:induction false} ChooseAbsorbs(n: nat, k: nat)
    requires 1 <= k && 1 <= n
    ensures k * Choose(n, k) == n * Choose(n - 1, k - 1)
    decreases n
  {
    if n == 1 {
      if k > 1 { ChooseAbove(0, k - 1); ChooseAbove(0, k); }
    } else if k == 1 {
      ChooseAbsorbs(n - 1, 1);
    } else {
      ChooseAbsorbs(n - 1, k - 1);
      ChooseAbsorbs(n - 1, k);
      var x, y, z, v := Choose(n - 1, k - 1), Choose(n - 1, k), Choose(n - 2, k - 2), Choose(n - 2, k - 1);
      assert x == z + v;
      AbsorbStep(n, k, x, y, z, v);
      assert Choose(n, k) == x + y;
    }
  }

  /** The first j + 1 terms of (a + 1)^n. */
  ghost function Terms(a: nat, n: nat, j: nat): int {
    Choose(n, j) * Pow(a, j) + if j == 0 then 0 else Terms(a, n, j - 1)
  }

  lemma PascalStep(a: int, x: int, y: int, w: int, s: int, s': int)
    ensures (x + y) * (a * w) + (s + a * s') == (y * (a * w) + s) + a * (x * w + s')
  {
    assert (x + y) * (a * w) == x * (a * w) + y * (a * w);
    assert a * (x * w + s') == a * (x * w) + a * s';
  }

  lemma {:induction false} TermsPascal(a: nat, n: nat, j: nat)
    requires n >= 1
    ensures Terms(a, n, j) == Terms(a, n - 1, j) + if j == 0 then 0 else a * Terms(a, n - 1, j - 1)
  {
    if j > 0 {
      TermsPascal(a, n, j - 1);
      var x, y, w := Choose(n - 1, j - 1), Choose(n - 1, j), Pow(a, j - 1);
      var s, s' := Terms(a, n - 1, j - 1), if j == 1 then 0 else Terms(a, n - 1, j - 2);
      assert s == x * w + s';
      assert Terms(a, n, j - 1) == s + a * s';
      assert Terms(a, n, j) == (x + y) * (a * w) + Terms(a, n, j - 1);
      assert Terms(a, n - 1, j) == y * (a * w) + s;
      PascalStep(a, x, y, w, s, s');
    }
  }

  lemma {:induction false} BinomialTheorem(a: nat, n: nat)
    ensures Pow(a + 1, n) == Terms(a, n, n)
  {
    if n > 0 {
      BinomialTheorem(a, n - 1);
      TermsPascal(a, n, n);
      ChooseAbove(n - 1, n);
      assert Terms(a, n - 1, n) == 0 * Pow(a, n) + Terms(a, n - 1, n - 1);
    }
  }

  /** Modulo a prime every inner coefficient vanishes, */
  lemma InnerCoefficient(p: nat, j: nat)
    requires Prime(p) && 0 < j < p
    ensures Choose(p, j) % p == 0
  {
    hide Prime, Choose;
    ChooseAbsorbs(p, j);
    ModShift(0, Choose(p - 1, j - 1), p);
    RemainderUnique(j, p, 0, j);
    RemainderUnique(0, p, 0, 0);
    assert p * Choose(p - 1, j - 1) == 0 + Choose(p - 1, j - 1) * p;
    PrimeDivides(p, j, Choose(p, j));
  }

  /** and so every inner term. */
  lemma {:induction false} InnerTerms(a: nat, p: nat, j: nat)
    requires Prime(p) && j < p
    ensures Terms(a, p, j) % p == 1
  {
    hide Prime;
    if j > 0 {
      hide Choose, Pow;
      InnerTerms(a, p, j - 1);
      InnerCoefficient(p, j);
      MultipleOf(Choose(p, j), Pow(a, j), p);
      ModAdd(Choose(p, j) * Pow(a, j), Terms(a, p, j - 1), p);
      RemainderUnique(1, p, 0, 1);
    } else {
      assert Terms(a, p, 0) == 1;
      RemainderUnique(1, p, 0, 1);
    }
  }

  lemma {:induction false} PowPrime(a: nat, p: nat)
    requires Prime(p)
    ensures Pow(a, p) % p == a % p
  {
    if a == 0 {
      assert Pow(0, p) == 0 * Pow(0, p - 1);
    } else {
      var b := a - 1;
      PowPrime(b, p);
      BinomialTheorem(b, p);
      InnerTerms(b, p, p - 1);
      ChooseTop(p);
      assert Pow(a, p) == Pow(b, p) + Terms(b, p, p - 1);
      ModAdd(Pow(b, p), Terms(b, p, p - 1), p);
      ModAdd(b, 1, p);
      assert 1 % p == 1;
    }
  }

  lemma {:induction false} ChooseTop(n: nat)
    ensures Choose(n, n) == 1
  {
    if n > 0 {
      ChooseTop(n - 1);
      ChooseAbove(n - 1, n);
    }
  }

  /** Fermat's little theorem. */
  lemma {:induction false} Fermat(a: nat, p: nat)
    requires Prime(p) && a % p != 0
    ensures Pow(a, p - 1) % p == 1
  {
    hide Prime;
    PowPrime(a, p);
    var w := Pow(a, p - 1);
    assert Pow(a, p) == a * w;
    hide Pow;
    Congruent(a * w, a, p);
    assert a * w - a == a * (w - 1);
    PrimeDivides(p, a, w - 1);
    Congruent(w, 1, p);
    RemainderUnique(1, p, 0, 1);
  }
}
