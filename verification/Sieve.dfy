/** The prime-counting kernel: a sieve of Eratosthenes over an array of marks. */
module Sieve {
  import opened Types

  function Times(a: nat, b: nat): nat {
    a * b
  }

  ghost predicate Divides(d: nat, n: nat) {
    exists k: nat :: Times(d, k) == n
  }

  ghost predicate Prime(n: nat) {
    n >= 2 && forall d: nat | 2 <= d < n :: !Divides(d, n)
  }

  /** No d with 2 <= d < p divides n, other than n itself. */
  ghost predicate Survives(n: nat, p: nat) {
    n >= 2 && forall d: nat | 2 <= d < p && d < n :: !Divides(d, n)
  }

  lemma TimesGrows(a: nat, b: nat, c: nat)
    requires b <= c
    ensures a * b <= a * c
    ensures a > 0 && b < c ==> a * b + a <= a * c
  {
    assert a * c == a * b + a * (c - b);
    if a > 0 && b < c {
      assert a * (c - b) == a + a * (c - b - 1);
    }
  }

  lemma Cofactor(d: nat, n: nat) returns (q: nat)
    requires d >= 2 && n > d && Divides(d, n)
    ensures n == d * q && 2 <= q < n && Divides(q, n)
  {
    q :| Times(d, q) == n;
    assert q >= 2 by {
      if q < 2 {
        TimesGrows(d, q, 1);
      }
    }
    assert Times(q, d) == n;
    TimesGrows(q, 2, d);
  }

  lemma DividesTrans(a: nat, b: nat, c: nat)
    requires Divides(a, b) && Divides(b, c)
    ensures Divides(a, c)
  {
    var x: nat :| Times(a, x) == b;
    var y: nat :| Times(b, y) == c;
    assert (a * x) * y == a * (x * y);
    assert Times(a, x * y) == c;
  }

  /** Survivors of every candidate up to the square root are prime. */
  lemma SurvivorIsPrime(n: nat, p: nat, bound: nat)
    requires p >= 2 && n <= bound < p * p
    ensures Survives(n, p) <==> Prime(n)
  {
    if Survives(n, p) {
      forall d: nat | 2 <= d < n
        ensures !Divides(d, n)
      {
        if Divides(d, n) {
          SmallFactor(d, n, p);
        }
      }
    }
  }

  lemma SmallFactor(d: nat, n: nat, p: nat)
    requires 2 <= d < n && Divides(d, n) && n < p * p
    ensures !Survives(n, p)
  {
    if d >= p {
      var q := Cofactor(d, n);
      if q >= p {
        TimesGrows(d, p, q);
        TimesGrows(p, p, d);
      }
    }
  }

  /** A multiple of p below its square, or of a p already struck out, has a factor below p. */
  lemma StruckBefore(n: nat, p: nat)
    requires p >= 2 && n > p && Divides(p, n)
    requires n < p * p || !Survives(p, p)
    ensures !Survives(n, p)
  {
    if n < p * p {
      SmallFactor(p, n, p);
    } else {
      var d: nat :| 2 <= d < p && Divides(d, p);
      DividesTrans(d, p, n);
    }
  }

  /** The primes up to n. */
  ghost function PrimesUpTo(n: nat): set<nat> {
    set k: nat | k <= n && Prime(k)
  }

  function Clamp(x: nat, low: nat, high: nat): (r: nat)
    requires low <= high
    ensures low <= r <= high && (low <= x <= high ==> r == x)
    ensures (x < low ==> r == low) && (x > high ==> r == high)
  {
    if x < low then low else if x > high then high else x
  }

  method PrimeCount(job: Job) returns (output: Output)
    ensures output.U64? && output.word == |PrimesUpTo(Clamp(job.computeCost, 10_000, 250_000))|
  {
    var n := Clamp(job.computeCost, 10_000, 250_000);
    var isPrime := new bool[n + 1](_ => true);
    isPrime[0] := false;
    isPrime[1] := false;
    var p := 2;
    while p * p <= n
      invariant 2 <= p
      invariant !isPrime[0] && !isPrime[1]
      invariant forall i: nat | 2 <= i <= n :: isPrime[i] <==> Survives(i, p)
      decreases n - p
    {
      assert p <= n by {
        assert p * 1 <= p * p;
      }
      if isPrime[p] {
        StrikeMultiples(isPrime, n, p);
      } else {
        NothingToStrike(n, p);
      }
      p := p + 1;
    }
    forall i: nat | i <= n
      ensures isPrime[i] <==> Prime(i)
    {
      if i >= 2 {
        SurvivorIsPrime(i, p, n);
      }
    }
    var count := 0;
    ghost var seen: set<nat> := {};
    for k := 0 to n + 1
      invariant count == |seen| <= k
      invariant seen == set i: nat | i < k && Prime(i)
    {
      if isPrime[k] {
        count := count + 1;
        seen := seen + {k};
      }
    }
    assert seen == PrimesUpTo(n);
    output := U64(count);
  }

  lemma NothingToStrike(n: nat, p: nat)
    requires p >= 2 && !Survives(p, p)
    ensures forall i: nat | 2 <= i <= n :: Survives(i, p + 1) <==> Survives(i, p)
  {
    forall i: nat | 2 <= i <= n
      ensures Survives(i, p + 1) <==> Survives(i, p)
    {
      SurvivesNext(i, p);
    }
  }

  lemma SurvivesNext(i: nat, p: nat)
    requires p >= 2 && i >= 2
    ensures Survives(i, p + 1) <==> Survives(i, p) && (i > p ==> !Divides(p, i))
    ensures !Survives(p, p) ==> (Survives(i, p + 1) <==> Survives(i, p))
    ensures i < p * p ==> (Survives(i, p + 1) <==> Survives(i, p))
  {
    if i > p && Divides(p, i) && (i < p * p || !Survives(p, p)) {
      StruckBefore(i, p);
    }
  }

  /** Strikes out p * p, p * p + p, ... */
  method StrikeMultiples(isPrime: array<bool>, n: nat, p: nat)
    requires isPrime.Length == n + 1 && p >= 2 && p * p <= n
    requires !isPrime[0] && !isPrime[1]
    requires forall i: nat | 2 <= i <= n :: isPrime[i] <==> Survives(i, p)
    modifies isPrime
    ensures !isPrime[0] && !isPrime[1]
    ensures forall i: nat | 2 <= i <= n :: isPrime[i] <==> Survives(i, p + 1)
  {
    var k := p * p;
    assert Times(p, p) == k;
    TimesGrows(p, 2, p);
    while k <= n
      invariant p * p <= k && Divides(p, k)
      invariant !isPrime[0] && !isPrime[1]
      invariant forall i: nat | 2 <= i <= n ::
                  isPrime[i] <==> Survives(i, p) && !(p * p <= i < k && Divides(p, i))
    {
      isPrime[k] := false;
      NextMultiple(p, k);
      k := k + p;
    }
    forall i: nat | 2 <= i <= n
      ensures isPrime[i] <==> Survives(i, p + 1)
    {
      SurvivesNext(i, p);
    }
  }

  lemma NextMultiple(p: nat, k: nat)
    requires p >= 2 && Divides(p, k)
    ensures Divides(p, k + p)
    ensures forall i: nat | k < i < k + p :: !Divides(p, i)
  {
    var q: nat :| Times(p, q) == k;
    forall i: nat | k < i < k + p
      ensures !Divides(p, i)
    {
      forall m: nat
        ensures Times(p, m) != i
      {
        if m <= q {
          TimesGrows(p, m, q);
        } else {
          TimesGrows(p, q, m);
        }
      }
    }
    assert Times(p, q + 1) == k + p;
  }
}
