/** Multiples and remainders, and sums of multisets. */
module Arithmetic {

  lemma ScaleBounds(k: int, p: int)
    requires p > 0
    ensures k >= 1 ==> k * p >= p
    ensures k <= 0 ==> k * p <= 0
    ensures k <= -1 ==> k * p <= -p
  {
  }

  /** A quotient and a remainder in range are the quotient and the remainder. */
  lemma QuotientUnique(n: int, p: int, q: int, r: int)
    requires p > 0 && 0 <= r < p && n == q * p + r
    ensures n % p == r
  {
    var d := n / p - q;
    assert n == (n / p) * p + n % p;
    assert d * p == r - n % p;
    ScaleBounds(d, p);
  }

  lemma EmptySum<T>(a: multiset<T>, b: multiset<T>)
    ensures a + b == multiset{} <==> a == multiset{} && b == multiset{}
  {
    if a + b == multiset{} {
      assert |a + b| == |a| + |b| == 0;
    }
  }

  lemma SwapSum<T>(a: multiset<T>, b: multiset<T>, c: multiset<T>)
    ensures (a + b) + c == (a + c) + b
  {
  }
}
