/**
 The number theory behind quadratic probing, and the search of the prime table.

 Both hash tables of the repository probe position `h + k*k` modulo a prime
 bucket count. The first `(p + 1) / 2` of those positions are pairwise distinct,
 which is what bounds every probe loop.
 */
module Primes {
  import opened Arithmetic

  ghost predicate Divides(d: int, n: int)
    requires d > 0
  {
    exists k: int :: n == k * d
  }

  ghost predicate IsPrime(p: int) {
    p >= 2 && forall d :: 2 <= d < p ==> !Divides(d, p)
  }

  lemma DividesDifference(p: int, a: int, b: int)
    requires p > 0 && Divides(p, a) && Divides(p, b)
    ensures Divides(p, a - b)
  {
    var i :| a == i * p;
    var j :| b == j * p;
    assert a - b == (i - j) * p;
  }

  lemma DividesProduct(p: int, a: int, c: int)
    requires p > 0 && Divides(p, a)
    ensures Divides(p, c * a)
  {
    var i :| a == i * p;
    assert c * a == (c * i) * p;
  }

  /** If p divides a product, it divides the product with the remainder of p by the first factor. */
  lemma DividesRemainder(p: int, a: int, b: int)
    requires 1 <= a < p && Divides(p, a * b)
    ensures Divides(p, (p % a) * b)
  {
    var q, r := p / a, p % a;
    DividesProduct(p, a * b, q);
    assert Divides(p, b * p);
    DividesDifference(p, b * p, q * (a * b));
    RemainderProduct(p, a, q, r, b);
  }

  lemma RemainderProduct(p: int, a: int, q: int, r: int, b: int)
    requires p == q * a + r
    ensures b * p - q * (a * b) == r * b
  {
  }

  /** Euclid's lemma for a factor below the prime, by the remainder descent p = (p/a)*a + p%a. */
  lemma {:induction false} EuclidBelow(p: int, a: int, b: int)
    requires IsPrime(p) && 1 <= a < p && Divides(p, a * b)
    ensures Divides(p, b)
    decreases a
  {
    if a > 1 {
      if p % a == 0 {
        assert p == (p / a) * a;
        assert Divides(a, p);
      } else {
        DividesRemainder(p, a, b);
        EuclidBelow(p, p % a, b);
      }
    }
  }

  /** No positive number below p is a multiple of p. */
  lemma NotDividedBelow(p: int, n: int)
    requires 0 < n < p
    ensures !Divides(p, n)
  {
    if Divides(p, n) {
      var k :| n == k * p;
      ScaleBounds(k, p);
    }
  }

  lemma CongruentDifference(p: int, a: int, b: int)
    requires p > 0 && a % p == b % p
    ensures Divides(p, a - b)
  {
    assert a == (a / p) * p + a % p;
    assert b == (b / p) * p + b % p;
    assert a - b == (a / p - b / p) * p;
  }

  /** The position of probe number k for hash code h in a table of p buckets. */
  function Probe(h: nat, p: nat, k: nat): (r: nat)
    requires p > 0
    ensures r < p
  {
    (h + k * k) % p
  }

  /** The positions of the first (p + 1) / 2 probes are pairwise distinct for an odd prime p. */
  lemma ProbesDistinct(h: nat, p: nat, i: nat, j: nat)
    requires IsPrime(p) && p % 2 == 1
    requires i < j <= (p - 1) / 2
    ensures Probe(h, p, i) != Probe(h, p, j)
  {
    if Probe(h, p, i) == Probe(h, p, j) {
      CongruentDifference(p, h + j * j, h + i * i);
      assert (h + j * j) - (h + i * i) == (j - i) * (j + i);
      EuclidBelow(p, j - i, j + i);
      NotDividedBelow(p, j + i);
    }
  }

  /** One loop step of the probe: adding 2k - 1 and wrapping at most once moves from probe k - 1 to probe k. */
  lemma ProbeStep(h: nat, p: nat, k: nat)
    requires p >= 1 && 1 <= k && 2 * k - 1 <= p
    ensures var next := Probe(h, p, k - 1) + 2 * k - 1;
            Probe(h, p, k) == (if next >= p then next - p else next)
            && next < 2 * p
  {
    var q := (h + (k - 1) * (k - 1)) / p;
    var pos := Probe(h, p, k - 1);
    assert h + (k - 1) * (k - 1) == q * p + pos;
    assert k * k == (k - 1) * (k - 1) + (2 * k - 1);
    var next := pos + 2 * k - 1;
    assert h + k * k == q * p + next;
    if next >= p {
      assert h + k * k == (q + 1) * p + (next - p);
      QuotientUnique(h + k * k, p, q + 1, next - p);
    } else {
      QuotientUnique(h + k * k, p, q, next);
    }
  }

  /** The prime table: strictly increasing primes, starting with 2, so every later one is odd. */
  ghost predicate PrimeTable(primes: seq<nat>) {
    && |primes| >= 2
    && (forall i :: 0 <= i < |primes| ==> IsPrime(primes[i]))
    && (forall i, j :: 0 <= i < j < |primes| ==> primes[i] < primes[j])
    && primes[0] == 2
  }

  lemma LaterPrimesAreOdd(primes: seq<nat>, i: nat)
    requires PrimeTable(primes) && 1 <= i < |primes|
    ensures primes[i] % 2 == 1 && primes[i] >= 3
  {
    assert primes[0] < primes[i];
    if primes[i] % 2 == 0 {
      assert primes[i] == (primes[i] / 2) * 2;
      assert Divides(2, primes[i]);
    }
  }

  /**
   The bucket count for a requested capacity: the least tabled prime above twice
   the capacity, never the entry 2, and the last entry when the table is exhausted.
   The loop has no branch for equality; it still terminates because an even target
   never equals an odd prime.
   */
  method SearchBucketCount(primes: seq<nat>, capacity: nat) returns (count: nat)
    requires PrimeTable(primes)
    ensures IsPrime(count) && count % 2 == 1 && count in primes
    ensures forall i :: 1 <= i < |primes| && primes[i] > 2 * capacity ==> count <= primes[i]
    ensures count > 2 * capacity || count == primes[|primes| - 1]
    ensures primes[|primes| - 1] > 2 * capacity ==> count > 2 * capacity
  {
    var target := 2 * capacity;
    var start, end := 0, |primes| - 1;
    while end - start > 1
      invariant 0 <= start < end < |primes|
      invariant start == 0 || primes[start] < target
      invariant end == |primes| - 1 || primes[end] > target
    {
      var i := (start + end) / 2;
      LaterPrimesAreOdd(primes, i);
      if primes[i] < target {
        start := i;
      } else if primes[i] > target {
        end := i;
      }
    }
    LaterPrimesAreOdd(primes, end);
    count := primes[end];
    assert forall i :: 1 <= i <= start ==> primes[i] <= primes[start] < target;
  }
}
