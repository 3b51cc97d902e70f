/**
 * qvault/attack/cost.py: drawing balanced semiprimes and factoring them. Random draws are arbitrary
 * numbers in range, times are arbitrary, and the two rejection loops, which nothing bounds in the
 * original, give up after `tries` draws.
 */
module FactoringCurve {
  import opened Bits
  import opened NumberTheory
  import opened Primality
  import opened Rho
  import opened Wrappers

  datatype Semiprime = Semiprime(n: int, p: int, q: int)

  datatype Sample = Sample(bits: nat, n: int, low: int, high: int, iterations: nat)

  datatype Report =
    | Samples(samples: seq<Sample>)
    | AssertionFailed(n: int, p: int, q: int, factor: int)
    | GaveUp

  /** `_random_prime`: odd, `bits` wide, and accepted by the primality test. */
  method RandomPrime(bits: nat, tries: nat) returns (prime: Option<int>)
    requires bits >= 1
    ensures prime.Some? ==>
              && ProbablePrime(prime.value)
              && prime.value % 2 == 1 && Pow2(bits - 1) <= prime.value < Pow2(bits)
  {
    hide ProbablePrime;
    for i := 0 to tries {
      var drawn: int :| Pow2(bits - 1) <= drawn < Pow2(bits);
      var candidate := if drawn % 2 == 1 then drawn else drawn + 1;
      OddStaysBelow(bits, drawn);
      var ok := IsProbablePrime(candidate);
      if ok { return Some(candidate); }
    }
    prime := None;
  }

  /** Setting the lowest bit does not leave the range. */
  lemma OddStaysBelow(bits: nat, drawn: int)
    requires bits >= 1 && Pow2(bits - 1) <= drawn < Pow2(bits)
    ensures drawn % 2 == 0 ==> drawn + 1 < Pow2(bits)
  {
    if bits > 1 { assert Pow2(bits) == 2 * Pow2(bits - 1); }
  }

  /** Two different accepted factors of half the width each, and their product of exactly the width asked. */
  ghost predicate Balanced(s: Semiprime, bits: nat)
    requires bits >= 2
  {
    && s.n == s.p * s.q && s.p != s.q && s.p > 1 && s.q > 1
    && ProbablePrime(s.p) && ProbablePrime(s.q)
    && Pow2(bits - 1) <= s.n < Pow2(bits)
    && s.p < Pow2(bits / 2) && s.q < Pow2(bits - bits / 2)
  }

  /** `_balanced_semiprime` */
  method BalancedSemiprime(bits: nat, tries: nat) returns (drawn: Option<Semiprime>)
    requires bits >= 2
    ensures drawn.Some? ==> Balanced(drawn.value, bits)
  {
    var half := bits / 2;
    for i := 0 to tries {
      var p := RandomPrime(half, tries);
      var q := RandomPrime(bits - half, tries);
      if p.Some? && q.Some? {
        ProbableAboveOne(p.value);
        ProbableAboveOne(q.value);
        var n := p.value * q.value;
        if p.value != q.value && n >= 0 && BitLength(n) == bits {
          BitLengthBounds(n);
          return Some(Semiprime(n, p.value, q.value));
        }
      }
    }
    drawn := None;
  }

  lemma ProbableAboveOne(n: int)
    requires ProbablePrime(n)
    ensures n > 1
  {
  }

  /** A recorded sample: both factors proper, in order, of a number of the width asked for. */
  ghost predicate Factored(s: Sample) {
    && 1 < s.low <= s.high < s.n && s.low * s.high == s.n
    && s.bits >= 1 && Pow2(s.bits - 1) <= s.n < Pow2(s.bits)
  }

  /** One sample for each of the first widths. */
  ghost predicate Fits(samples: seq<Sample>, widths: seq<nat>) {
    && |samples| <= |widths|
    && forall i :: 0 <= i < |samples| ==> samples[i].bits == widths[i] && Factored(samples[i])
  }

  /** Both factors of every sample are ones that the primality test accepted. */
  ghost predicate Accepted(samples: seq<Sample>) {
    forall i :: 0 <= i < |samples| ==> ProbablePrime(samples[i].low) && ProbablePrime(samples[i].high)
  }

  lemma NoneFit(widths: seq<nat>)
    ensures Fits([], widths) && Accepted([])
  {
  }

  lemma OneMoreFits(samples: seq<Sample>, widths: seq<nat>, s: Sample)
    requires Fits(samples, widths) && Accepted(samples) && |samples| < |widths|
    requires s.bits == widths[|samples|] && Factored(s) && ProbablePrime(s.low) && ProbablePrime(s.high)
    ensures Fits(samples + [s], widths) && Accepted(samples + [s])
  {
    hide ProbablePrime, Factored;
  }

  /** The sample's factors are the divisor given and what it divides n into. */
  ghost predicate HoldsPair(s: Sample, n: int, factor: int)
    requires factor != 0
  {
    (s.low == factor && s.high == n / factor) || (s.low == n / factor && s.high == factor)
  }

  /** The sample for one width: its factors in order. */
  method MakeSample(bits: nat, n: int, factor: int, iterations: nat) returns (s: Sample)
    requires bits >= 1 && Pow2(bits - 1) <= n < Pow2(bits)
    requires 1 < factor < n && n % factor == 0
    ensures s.bits == bits && s.n == n && Factored(s)
    ensures HoldsPair(s, n, factor)
  {
    var cofactor := n / factor;
    ghost var e := Cofactor(n, factor);
    SameFactor(factor, e, cofactor);
    Commutes(factor, cofactor);
    s := if factor <= cofactor then Sample(bits, n, factor, cofactor, iterations)
         else Sample(bits, n, cofactor, factor, iterations);
  }

  /**
   * `classical_factoring_curve`. The assertion on the factors can only fail if the primality test
   * let a composite through, and at widths up to 20 it never does.
   */
  method Curve(widths: seq<nat>, tries: nat) returns (report: Report)
    requires forall b :: b in widths ==> b >= 2
    ensures report.Samples? ==> Fits(report.samples, widths)
    ensures report.Samples? ==> Accepted(report.samples)
    ensures report.AssertionFailed? ==>
              && ProbablePrime(report.p) && ProbablePrime(report.q)
              && (!Prime(report.p) || !Prime(report.q))
    ensures (forall b :: b in widths ==> b <= 20) ==> !report.AssertionFailed?
  {
    hide Prime, ProbablePrime, Pow2, Accepted, Factored, HoldsPair, Balanced, Fits, Restarts, Ended, Steps, Meeting;
    NoneFit(widths);
    var samples: seq<Sample> := [];
    for k := 0 to |widths|
      invariant |samples| == k && Fits(samples, widths) && Accepted(samples)
    {
      var spent: bool :| true;
      if spent { break; }
      assert widths[k] in widths;
      var drawn := BalancedSemiprime(widths[k], tries);
      if drawn.None? { return GaveUp; }
      var Semiprime(n, p, q) := drawn.value;
      var outcome, walks := PollardRho(n, 8_000_000);
      if !outcome.Found? { break; }
      FoundIsProper(drawn.value, widths[k], outcome.factor);
      var sample := MakeSample(widths[k], n, outcome.factor, outcome.iterations);
      ghost var before := samples;
      samples := samples + [sample];
      if !((sample.low == p && sample.high == q) || (sample.low == q && sample.high == p)) {
        WrongFactors(drawn.value, widths[k], outcome.factor, sample);
        return AssertionFailed(n, p, q, outcome.factor);
      }
      OneMoreFits(before, widths, sample);
    }
    report := Samples(samples);
  }

  /** When the assertion fails, one of the two factors drawn was no prime, and the width is above 20. */
  lemma WrongFactors(drawn: Semiprime, bits: nat, factor: int, s: Sample)
    requires bits >= 2 && Balanced(drawn, bits) && 1 < factor < drawn.n && drawn.n % factor == 0
    requires HoldsPair(s, drawn.n, factor)
    requires !((s.low == drawn.p && s.high == drawn.q) || (s.low == drawn.q && s.high == drawn.p))
    ensures (!Prime(drawn.p) || !Prime(drawn.q)) && bits > 20
  {
    hide Prime, ProbablePrime, Pow2;
    AssertionNeedsComposite(drawn.p, drawn.q, factor);
    NarrowFactorsArePrime(bits, drawn.p, drawn.q);
  }

  /** Up to 20 bits both factors have at most 10, where the primality test is exact. */
  lemma NarrowFactorsArePrime(bits: nat, p: int, q: int)
    requires ProbablePrime(p) && ProbablePrime(q)
    requires p < Pow2(bits / 2) && q < Pow2(bits - bits / 2)
    ensures bits <= 20 ==> Prime(p) && Prime(q)
  {
    if bits <= 20 {
      AtMost1024(bits / 2);
      AtMost1024(bits - bits / 2);
      ProbableBelow1681(p);
      ProbableBelow1681(q);
    }
  }

  lemma AtMost1024(k: nat)
    ensures k <= 10 ==> Pow2(k) <= 1024
  {
    assert Pow2(5) == 32;
    assert Pow2(10) == 32 * Pow2(5);
    if k < 10 { Pow2Monotone(k, 10); }
  }

  lemma Commutes(a: int, b: int)
    ensures a * b == b * a
  {
  }

  /** Even products are answered 2 at once; 2 is a proper divisor of a product of two different factors. */
  lemma FoundIsProper(drawn: Semiprime, bits: nat, factor: int)
    requires bits >= 2 && Balanced(drawn, bits)
    requires drawn.n % 2 == 0 ==> factor == 2
    requires drawn.n % 2 == 1 ==> 1 < factor < drawn.n && drawn.n % factor == 0
    ensures 1 < factor < drawn.n && drawn.n % factor == 0
    ensures ProbablePrime(drawn.p) && ProbablePrime(drawn.q) && Pow2(bits - 1) <= drawn.n < Pow2(bits)
  {
    Gap(drawn.p, drawn.q, 1);
  }

  /** With both primes really prime, any proper divisor gives back exactly {p, q}. */
  lemma AssertionNeedsComposite(p: int, q: int, factor: int)
    requires p > 1 && q > 1 && 1 < factor < p * q && (p * q) % factor == 0
    requires var cofactor := p * q / factor;
             !((factor == p && cofactor == q) || (factor == q && cofactor == p))
    ensures !Prime(p) || !Prime(q)
  {
    if Prime(p) && Prime(q) { GivesBack(p, q, factor); }
  }

  lemma GivesBack(p: int, q: int, factor: int)
    requires Prime(p) && Prime(q) && 1 < factor < p * q && (p * q) % factor == 0
    ensures var cofactor := p * q / factor;
            (factor == p && cofactor == q) || (factor == q && cofactor == p)
  {
    ProductOfPrimes(p, q, factor);
    var cofactor := p * q / factor;
    assert factor * cofactor == p * q;
    if factor == p {
      SameFactor(p, cofactor, q);
    } else {
      assert q * p == p * q;
      SameFactor(q, cofactor, p);
    }
  }
}
