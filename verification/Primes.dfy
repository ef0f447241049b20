/** Primes: the trial division of common/htopen.c, and Euclid's lemma, on which probing rests. */
module Primes {
  import opened Arith

  predicate Divides(d: nat, n: nat)
    requires d > 0
  {
    n % d == 0
  }

  ghost predicate IsPrime(n: nat) {
    2 <= n && forall d :: 2 <= d < n ==> !Divides(d, n)
  }

  /** i * i is computed in a signed 32-bit int; below this bound it never overflows. */
  const TRIAL_LIMIT := 46340 * 46340

  /** A proper divisor of n yields one that is at most the square root of n. */
  lemma SmallFactor(n: nat, d: nat) returns (f: nat)
    requires 2 <= d < n && Divides(d, n)
    ensures 2 <= f < n && f * f <= n && Divides(f, n)
  {
    var e := n / d;
    assert n == d * e;
    if d <= e {
      MulMono(d, e, d);
      f := d;
    } else {
      MulMono(e, d, e);
      CofactorBounds(n, d, e);
      ModOfMultiple(d, e);
      f := e;
    }
  }

  lemma CofactorBounds(n: nat, d: nat, e: nat)
    requires 2 <= d < n && n == d * e
    ensures 2 <= e < n
  {
    assert e == 0 ==> d * e == 0;
    assert e == 1 ==> d * e == d;
    MulMono(2, d, e);
  }

  lemma PrimeByTrial(n: nat, i: nat)
    requires 2 <= n && i * i > n
    requires forall d :: 2 <= d < i && d < n ==> !Divides(d, n)
    ensures IsPrime(n)
  {
    forall d | 2 <= d < n
      ensures !Divides(d, n)
    {
      if Divides(d, n) {
        var f := SmallFactor(n, d);
        SquareOrder(f, i);
      }
    }
  }

  lemma SquareOrder(f: nat, i: nat)
    requires f * f < i * i
    ensures f < i
  {
    if i <= f {
      MulMono(i, f, f);
      MulMono(i, f, i);
    }
  }

  /** largest_prime: the greatest prime not above n, or -1 when there is none. */
  method LargestPrime(n: nat) returns (r: int)
    requires n < TRIAL_LIMIT
    ensures n < 2 ==> r == -1
    ensures n >= 2 ==> 2 <= r <= n && IsPrime(r)
    ensures n >= 2 ==> forall q :: r < q <= n ==> !IsPrime(q)
  {
    var m := n;
    while m > 1
      invariant 0 <= m <= n && (n >= 2 ==> m >= 2)
      invariant forall q :: m < q <= n ==> !IsPrime(q)
    {
      var p, i := 1, 2;
      while i * i <= m && p != 0
        invariant 2 <= i
        invariant p != 0 ==> forall d :: 2 <= d < i && d < m ==> !Divides(d, m)
        invariant p == 0 ==> 2 <= i - 1 < m && Divides(i - 1, m)
        decreases m + 2 - i
      {
        MulMono(2, i, i);
        p := m % i;
        i := i + 1;
      }
      if p != 0 {
        PrimeByTrial(m, i);
        return m;
      }
      m := m - 1;
    }
    return -1;
  }

  /** Euclid's lemma for residues: a prime divides no product of smaller positive numbers. */
  lemma {:induction false} PrimeProduct(p: nat, a: nat, b: nat)
    requires IsPrime(p) && 0 < a < p && 0 < b < p
    ensures (a * b) % p != 0
    decreases a
  {
    if a == 1 {
      DivModUnique(b, p, 0, b);
    } else {
      var q, r := p / a, p % a;
      assert !Divides(a, p);
      PrimeProduct(p, r, b);
      if (a * b) % p == 0 {
        RemainderOfProduct(p, a, b, q, r);
      }
    }
  }

  lemma RemainderOfProduct(p: nat, a: nat, b: nat, q: nat, r: nat)
    requires p > 0 && p == q * a + r && (a * b) % p == 0
    ensures (r * b) % p == 0
  {
    var k := (a * b) / p;
    assert a * b == k * p;
    assert r * b == (p - q * a) * b == p * b - q * (a * b) == p * b - q * (k * p) == (b - q * k) * p;
    ModOfMultiple(b - q * k, p);
  }

  function Pow2(k: nat): nat {
    if k == 0 then 1 else 2 * Pow2(k - 1)
  }

  /** An odd prime divides no power of two. */
  lemma {:induction false} OddPrimeDividesNoPow2(p: nat, k: nat)
    requires IsPrime(p) && p != 2
    ensures Pow2(k) % p != 0
  {
    if k == 0 {
      DivModUnique(1, p, 0, 1);
    } else {
      OddPrimeDividesNoPow2(p, k - 1);
      var x := Pow2(k - 1);
      PrimeProduct(p, 2, x % p);
      assert 2 * x == 2 * (x % p) + (2 * (x / p)) * p;
      ModAddMultiple(2 * (x % p), 2 * (x / p), p);
    }
  }
}
