/**
 * qvault/attack/cost.py: `_pollard_rho`. The docstring names Brent's variant; the loop is Floyd's,
 * a slow and a fast walker, and that is what is modelled.
 */
module Rho {
  import opened NumberTheory

  /** `math.gcd` */
  function Gcd(a: nat, b: nat): nat
    decreases b
  {
    if b == 0 then a else Gcd(b, a % b)
  }

  lemma DividesSum(a: int, b: int, q: int, r: int, g: int)
    requires g > 0 && a == b * q + r && b % g == 0 && r % g == 0
    ensures a % g == 0
  {
    MultipleOf(b, q, g);
    ModAdd(b * q, r, g);
  }

  lemma {:induction false} GcdDivides(a: nat, b: nat)
    requires a > 0 || b > 0
    ensures var g := Gcd(a, b); g > 0 && a % g == 0 && b % g == 0
    decreases b
  {
    if b == 0 {
      RemainderUnique(a, a, 1, 0);
    } else {
      GcdDivides(b, a % b);
      DividesSum(a, b, a / b, a % b, Gcd(a, b));
    }
  }

  /** Every common divisor divides the greatest one. */
  lemma {:induction false} GcdGreatest(a: nat, b: nat, p: int)
    requires p > 0 && a % p == 0 && b % p == 0
    ensures Gcd(a, b) % p == 0
    decreases b
  {
    if b > 0 {
      assert a % b == a + b * -(a / b);
      MultipleOf(b, -(a / b), p);
      ModAdd(a, b * -(a / b), p);
      GcdGreatest(b, a % b, p);
    }
  }

  // ---------------------------------------------------------------- the orbit

  function Step(n: int, c: int, x: int): int
    requires n > 0
  {
    (x * x + c) % n
  }

  ghost function Orbit(n: int, c: int, x: int, k: nat): int
    requires n > 0
  {
    if k == 0 then x else Step(n, c, Orbit(n, c, x, k - 1))
  }

  function Abs(x: int): nat {
    if x < 0 then -x else x
  }

  /** The k-th test of the inner loop: the slow walker after k steps, the fast one after 2k. */
  ghost function Meeting(n: int, c: int, x: int, k: nat): nat
    requires n > 0
  {
    Gcd(Abs(Orbit(n, c, x, k) - Orbit(n, c, x, 2 * k)), n)
  }

  /**
   * A step squares and adds the constant: from 0 it gives the constant, and any two steps differ as the
   * squares do, so that those from x and -x meet. Nothing but x * x + c modulo n does all that.
   */
  lemma StepSquares(n: int, c: int, x: int, y: int)
    requires n > 0
    ensures 0 <= Step(n, c, x) < n && Step(n, c, 0) == c % n
    ensures (Step(n, c, x) - Step(n, c, y) - (x - y) * (x + y)) % n == 0
    ensures Step(n, c, -x) == Step(n, c, x)
  {
    assert x * x - y * y == (x - y) * (x + y) && -x * -x == x * x;
    RemaindersDiffer(n, x * x + c, y * y + c);
  }

  lemma RemaindersDiffer(n: int, a: int, b: int)
    requires n > 0
    ensures (a % n - b % n - (a - b)) % n == 0
  {
    var p, q, r, s := a / n, b / n, a % n, b % n;
    assert a == n * p + r && b == n * q + s;
    Distributes(n, q, p);
    RemainderUnique(r - s - (a - b), n, q - p, 0);
  }

  lemma Distributes(n: int, q: int, p: int)
    ensures n * (q - p) == n * q - n * p
  {
  }

  /** One step respects remainders modulo any divisor of n. */
  lemma StepCongruent(n: int, c: int, x: int, y: int, p: int)
    requires n > 0 && p > 0 && n % p == 0 && x % p == y % p
    ensures Step(n, c, x) % p == Step(n, c, y) % p
  {
    ModMod(x * x + c, n, p);
    ModMod(y * y + c, n, p);
    ModMul(x, x, p);
    ModMul(y, y, p);
    ModAdd(x * x, c, p);
    ModAdd(y * y, c, p);
  }

  /** Two points of the orbit that agree modulo p keep agreeing. */
  lemma {:induction false} OrbitCongruent(n: int, c: int, x: int, p: int, i: nat, j: nat, m: nat)
    requires n > 0 && p > 0 && n % p == 0
    requires Orbit(n, c, x, i) % p == Orbit(n, c, x, j) % p
    ensures Orbit(n, c, x, i + m) % p == Orbit(n, c, x, j + m) % p
  {
    if m > 0 {
      OrbitCongruent(n, c, x, p, i, j, m - 1);
      StepCongruent(n, c, Orbit(n, c, x, i + m - 1), Orbit(n, c, x, j + m - 1), p);
    }
  }

  /** Once on the cycle, going round it any number of times changes nothing modulo p. */
  lemma {:induction false} OrbitCycles(n: int, c: int, x: int, p: int, i: nat, t: nat, k: nat, s: nat)
    requires n > 0 && p > 0 && n % p == 0 && i <= k
    requires Orbit(n, c, x, i) % p == Orbit(n, c, x, i + t) % p
    ensures Orbit(n, c, x, k) % p == Orbit(n, c, x, k + s * t) % p
  {
    hide Orbit;
    if s == 0 {
      assert k + s * t == k;
    } else {
      var m := (s - 1) * t;
      assert m >= 0 && s * t == m + t;
      OrbitCycles(n, c, x, p, i, t, k, s - 1);
      OrbitCongruent(n, c, x, p, i, i + t, k - i + m);
      assert i + (k - i + m) == k + m && i + t + (k - i + m) == k + (m + t);
    }
  }

  // ---------------------------------------------------------------- pigeonhole

  /** More values than pigeonholes: two of them share one. */
  lemma {:induction false} Pigeonhole(xs: seq<int>, p: nat) returns (i: nat, j: nat)
    requires |xs| > p >= 1 && forall k :: 0 <= k < |xs| ==> 0 <= xs[k] < p
    ensures i < j < |xs| && xs[i] == xs[j]
    decreases p
  {
    if p == 1 {
      i, j := 0, 1;
    } else if t :| 0 <= t < |xs| && xs[t] == p - 1 {
      if u :| 0 <= u < |xs| && u != t && xs[u] == p - 1 {
        i, j := if t < u then t else u, if t < u then u else t;
      } else {
        var rest := xs[..t] + xs[t + 1..];
        assert forall k :: 0 <= k < |rest| ==> rest[k] == xs[if k < t then k else k + 1];
        i, j := Pigeonhole(rest, p - 1);
        i, j := if i < t then i else i + 1, if j < t then j else j + 1;
      }
    } else {
      i, j := Pigeonhole(xs, p - 1);
    }
  }

  /** The first p + 1 points of an orbit repeat modulo p. */
  lemma OrbitRepeats(n: int, c: int, x: int, p: nat) returns (i: nat, j: nat)
    requires n > 0 && p > 0
    ensures i < j <= p && Orbit(n, c, x, i) % p == Orbit(n, c, x, j) % p
  {
    var xs := seq(p + 1, k requires 0 <= k <= p => Orbit(n, c, x, k) % p);
    i, j := Pigeonhole(xs, p);
  }

  // ---------------------------------------------------------------- Floyd's bound

  /** A multiple of the cycle length t between i and i + t - 1, never 0. */
  function RoundUp(i: nat, t: nat): (s: nat)
    requires t > 0
    ensures s > 0
  {
    if i <= t then 1 else RoundUp(i - t, t) + 1
  }

  lemma {:induction false} RoundUpBounds(i: nat, t: nat)
    requires t > 0
    ensures i <= RoundUp(i, t) * t && (RoundUp(i, t) * t < i + t || (i == 0 && RoundUp(i, t) * t == t))
    decreases i
  {
    if i > t {
      RoundUpBounds(i - t, t);
      var s := RoundUp(i - t, t);
      assert (s + 1) * t == s * t + t;
    } else {
      assert 1 * t == t;
    }
  }

  /** For every divisor p of n, start and constant, the walkers agree modulo p within p steps. */
  lemma {:induction false} WalkersMeet(n: int, c: int, x: int, p: nat) returns (k: nat)
    requires n > 0 && p > 0 && n % p == 0
    ensures 1 <= k <= p && (Orbit(n, c, x, k) - Orbit(n, c, x, 2 * k)) % p == 0
  {
    var i, j := OrbitRepeats(n, c, x, p);
    var t := j - i;
    var s := RoundUp(i, t);
    RoundUpBounds(i, t);
    k := s * t;
    OrbitCycles(n, c, x, p, i, t, k, s);
    Congruent(Orbit(n, c, x, k), Orbit(n, c, x, 2 * k), p);
    if s > 1 { Gap(t, s, 1); }
    assert t * s == s * t && t * 1 == t;
  }

  /** So the inner loop's gcd is not 1 any more after at most p steps. */
  lemma {:induction false} ExitsWithin(n: int, c: int, x: int, p: nat) returns (k: nat)
    requires n > 0 && p > 1 && n % p == 0
    ensures 1 <= k <= p && Meeting(n, c, x, k) != 1
  {
    k := WalkersMeet(n, c, x, p);
    var z := Orbit(n, c, x, k) - Orbit(n, c, x, 2 * k);
    if z < 0 {
      MultipleOf(z, -1, p);
      assert z * -1 == -z;
    }
    GcdGreatest(Abs(z), n, p);
    RemainderUnique(1, p, 0, 1);
  }

  // ---------------------------------------------------------------- the method

  datatype Outcome =
    | Found(factor: int, iterations: nat)
    | TimedOut(iterations: nat)
    | EmptyRange  // `rng.randrange(2, n)` on an odd n below 3

  /** One restart: the start and the constant drawn, and how often the inner loop's body then ended. */
  datatype Walk = Walk(x: int, c: int, steps: nat)

  /** What its draws may be, and that all tests before its last gave 1. */
  ghost predicate Walked(n: int, w: Walk) {
    && 2 <= w.x < n && 1 <= w.c < n
    && forall i :: 1 <= i < w.steps ==> Meeting(n, w.c, w.x, i) == 1
  }

  /** A walk that left the inner loop: its last test was the first that did not give 1. */
  ghost predicate Ended(n: int, w: Walk) {
    Walked(n, w) && w.steps >= 1 && Meeting(n, w.c, w.x, w.steps) != 1
  }

  /** A walk that left it with n itself, so that another was begun. */
  ghost predicate Fruitless(n: int, w: Walk) {
    Ended(n, w) && Meeting(n, w.c, w.x, w.steps) == n
  }

  ghost function Steps(walks: seq<Walk>): nat {
    if walks == [] then 0 else Steps(walks[..|walks| - 1]) + walks[|walks| - 1].steps
  }

  /** All walks but the last were fruitless. */
  ghost predicate Restarts(n: int, walks: seq<Walk>) {
    walks != [] && Walked(n, walks[|walks| - 1]) && forall i :: 0 <= i < |walks| - 1 ==> Fruitless(n, walks[i])
  }

  /**
   * `_pollard_rho`. Each restart draws any start and any constant in range; `walks` are the restarts
   * made, in order. What is found is what the last walk's last test gave, a proper divisor; the
   * iterations are the walks' steps together. An odd prime is never answered: whatever is drawn, the
   * restarts go on to the cap. At the cap the last walk is cut short, every test of it having given 1.
   */
  method PollardRho(n: int, maxIterations: nat) returns (outcome: Outcome, ghost walks: seq<Walk>)
    ensures n % 2 == 0 ==> outcome == Found(2, 0)
    ensures n % 2 == 1 && n < 3 <==> outcome == EmptyRange
    ensures n % 2 == 1 && outcome.Found? ==>
              && 1 < outcome.factor < n && n % outcome.factor == 0
              && 1 <= outcome.iterations <= maxIterations
    ensures outcome.TimedOut? ==> outcome.iterations == maxIterations + 1
    ensures n % 2 == 1 && Prime(n) ==> outcome.TimedOut?
    ensures n % 2 == 1 && outcome.Found? ==>
              && Restarts(n, walks) && Ended(n, walks[|walks| - 1]) && Steps(walks) == outcome.iterations
              && outcome.factor == Meeting(n, walks[|walks| - 1].c, walks[|walks| - 1].x, walks[|walks| - 1].steps)
    ensures outcome.TimedOut? ==>
              && Restarts(n, walks) && Steps(walks) == maxIterations
              && var last := walks[|walks| - 1]; last.steps > 0 ==> Meeting(n, last.c, last.x, last.steps) == 1
    ensures !outcome.EmptyRange? ==> forall p: nat :: p > 1 && n % p == 0 ==> outcome.iterations <= |walks| * p
  {
    walks := [];
    if n % 2 == 0 { return Found(2, 0), []; }
    if n < 3 { return EmptyRange, []; }
    var iterations := 0;
    while true
      invariant iterations <= maxIterations
      invariant Steps(walks) == iterations && forall i :: 0 <= i < |walks| ==> Fruitless(n, walks[i])
      decreases maxIterations - iterations
    {
      var x :| 2 <= x < n;
      var c :| 1 <= c < n;
      var y, d := x, 1;
      ghost var start, k := x, 0;
      ghost var before := iterations;
      while d == 1
        invariant 2 <= n && n % 2 == 1
        invariant iterations == before + k && iterations <= maxIterations
        invariant x == Orbit(n, c, start, k) && y == Orbit(n, c, start, 2 * k)
        invariant k > 0 ==> d == Meeting(n, c, start, k)
        invariant k == 0 ==> d == 1
        invariant forall i :: 1 <= i < k ==> Meeting(n, c, start, i) == 1
        decreases maxIterations - iterations
      {
        iterations := iterations + 1;
        if iterations > maxIterations {
          AddWalk(walks, Walk(start, c, k));
          walks := walks + [Walk(start, c, k)];
          forall p: nat | p > 1 && n % p == 0 ensures iterations <= |walks| * p { WorkIsBounded(n, walks, p); }
          return TimedOut(iterations), walks;
        }
        x := Step(n, c, x);
        y := Step(n, c, y);
        y := Step(n, c, y);
        d := Gcd(Abs(x - y), n);
        k := k + 1;
      }
      AddWalk(walks, Walk(start, c, k));
      walks := walks + [Walk(start, c, k)];
      GcdDivides(Abs(x - y), n);
      if d != n {
        ProperDivisor(n, d);
        forall p: nat | p > 1 && n % p == 0 ensures iterations <= |walks| * p { WorkIsBounded(n, walks, p); }
        return Found(d, iterations), walks;
      }
    }
  }

  lemma AddWalk(walks: seq<Walk>, w: Walk)
    ensures Steps(walks + [w]) == Steps(walks) + w.steps
  {
    assert (walks + [w])[..|walks|] == walks;
  }

  /** No walk takes more steps than any divisor of n has units; one cut short takes fewer. */
  lemma WalkIsShort(n: int, w: Walk, p: nat)
    requires n > 0 && p > 1 && n % p == 0 && Walked(n, w)
    ensures w.steps <= p
    ensures w.steps > 0 && Meeting(n, w.c, w.x, w.steps) == 1 ==> w.steps < p
  {
    var k := ExitsWithin(n, w.c, w.x, p);
  }

  /** So the work of a run is at most its restarts times its smallest divisor. */
  lemma {:induction false} WorkIsBounded(n: int, walks: seq<Walk>, p: nat)
    requires n > 0 && p > 1 && n % p == 0 && Restarts(n, walks)
    ensures Steps(walks) <= |walks| * p
    ensures var last := walks[|walks| - 1];
            last.steps == 0 || Meeting(n, last.c, last.x, last.steps) == 1 ==> Steps(walks) < |walks| * p
  {
    var before, last := walks[..|walks| - 1], walks[|walks| - 1];
    WalkIsShort(n, last, p);
    assert |walks| * p == |before| * p + p;
    if before != [] {
      WorkIsBounded(n, before, p);
    }
  }

  lemma ProperDivisor(n: int, d: int)
    requires n > 0 && d > 0 && n % d == 0 && d != n
    ensures d < n
  {
    if d > n { RemainderUnique(n, d, 0, n); }
  }

  // ---------------------------------------------------------------- semiprimes

  /** The proper divisors of p * q are just p and q. */
  ghost predicate OnlyItsFactors(p: int, q: int) {
    forall d :: 1 < d < p * q && (p * q) % d == 0 ==> d == p || d == q
  }

  /** A prime factor of d * e comes out of d or out of e. */
  lemma TakeOut(q: int, d: int, e: int, m: int) returns (d': int, e': int)
    requires Prime(q) && d > 0 && e > 0 && d * e == q * m
    ensures d' > 0 && e' > 0 && d' * e' == m
    ensures (d == q * d' && e == e') || (d == d' && e == q * e')
  {
    hide Prime;
    MultipleOf(q, m, q);
    if d % q == 0 {
      d', e' := d / q, e;
      assert q * d' * e == q * (d' * e);
      SameFactor(q, d' * e, m);
    } else {
      PrimeDivides(q, d, e);
      d', e' := d, e / q;
      assert d * (q * e') == q * (d * e');
      SameFactor(q, d * e', m);
    }
  }

  lemma SameFactor(q: int, a: int, b: int)
    requires q > 0 && q * a == q * b
    ensures a == b
  {
    if a > b { Gap(q, a, b); }
    if b > a { Gap(q, b, a); }
  }

  lemma FactorsOfPrime(q: int, d: int, e: int)
    requires Prime(q) && d > 0 && e > 0 && d * e == q
    ensures d == 1 || d == q
  {
    if d > q { Gap(e, d, q); }
    assert e * d == q;
    RemainderUnique(q, d, e, 0);
  }

  /** Both factors of a divisor and its cofactor. */
  lemma Cofactor(n: int, d: int) returns (e: int)
    requires 1 < d < n && n % d == 0
    ensures 1 < e < n && d * e == n && n % e == 0
  {
    e := n / d;
    assert d * e == n;
    if e <= 0 { NotPositive(d, e); }
    if e >= n { Gap(e, d, 1); }
    RemainderUnique(n, e, d, 0);
  }

  lemma NotPositive(d: int, e: int)
    requires d > 0 && e <= 0
    ensures d * e <= 0
  {
  }

  lemma ProductOfPrimes(p: int, q: int, d: int)
    requires Prime(p) && Prime(q) && 1 < d < p * q && (p * q) % d == 0
    ensures d == p || d == q
  {
    hide Prime;
    var e := Cofactor(p * q, d);
    var d', e' := TakeOut(p, d, e, q);
    FactorsOfPrime(q, d', e');
  }

  lemma CubeOfPrime(q: int, d: int)
    requires Prime(q) && 1 < d < q * q * q && (q * q * q) % d == 0
    ensures d == q || d == q * q
  {
    hide Prime;
    var e := Cofactor(q * q * q, d);
    FactorOfCube(q, q * q, q * q * q, d, e);
  }

  /** With the square and the cube named, so that no product of three is in sight. */
  lemma FactorOfCube(q: int, square: int, cube: int, d: int, e: int)
    requires Prime(q) && square == q * q && cube == q * square
    requires 1 < d < cube && e > 0 && d * e == cube
    ensures d == q || d == square
  {
    hide Prime;
    var d', e' := TakeOut(q, d, e, square);
    var d'', e'' := TakeOut(q, d', e', q);
    FactorsOfPrime(q, d'', e'');
  }

  /** A divisor of a factor divides the product, and is smaller than it. */
  lemma DividesProduct(p: int, q: int, d: int)
    requires p > 1 && q > 1 && 1 < d <= p && p % d == 0
    ensures 1 < d < p * q && (p * q) % d == 0
  {
    MultipleOf(p, q, d);
    Gap(p, q, 1);
  }

  /** If p is composite and p * q has no other proper divisors, p is the square of the prime q. */
  lemma OneIsTheSquare(p: int, q: int)
    requires p > 1 && q > 1 && OnlyItsFactors(p, q) && !Prime(p)
    ensures p == q * q && Prime(q)
  {
    var d :| 2 <= d < p && p % d == 0;
    var e := Cofactor(p, d);
    DividesProduct(p, q, d);
    DividesProduct(p, q, e);
    assert d == q && e == q;
    assert q * p == p * q;
    forall c | 2 <= c < q ensures q % c != 0 {
      if q % c == 0 {
        DividesProduct(q, p, c);
      }
    }
  }

  /**
   * When the factors of n == p * q are certain to be {p, q}, which is what the assertion in
   * `classical_factoring_curve` claims: exactly for two primes, or a prime and its square.
   */
  lemma FactorsExact(p: int, q: int)
    requires p > 1 && q > 1
    ensures OnlyItsFactors(p, q) <==>
              (Prime(p) && Prime(q)) || (p == q * q && Prime(q)) || (q == p * p && Prime(p))
  {
    if OnlyItsFactors(p, q) {
      if !Prime(p) {
        OneIsTheSquare(p, q);
      } else if !Prime(q) {
        assert q * p == p * q;
        OneIsTheSquare(q, p);
      }
    }
    if Prime(p) && Prime(q) {
      forall d | 1 < d < p * q && (p * q) % d == 0 ensures d == p || d == q { ProductOfPrimes(p, q, d); }
    }
    if p == q * q && Prime(q) {
      forall d | 1 < d < p * q && (p * q) % d == 0 ensures d == p || d == q { CubeOfPrime(q, d); }
    }
    if q == p * p && Prime(p) {
      assert p * q == p * p * p;
      forall d | 1 < d < p * q && (p * q) % d == 0 ensures d == p || d == q { CubeOfPrime(p, d); }
    }
  }
}
