/** Prime factorisation by trial division: the specification the decomposition stream is proved against. */
module Factorization {
  ghost predicate IsPrime(p: int) {
    p >= 2 && forall k :: 2 <= k < p ==> p % k != 0
  }

  /** No integer in [2, d) divides `n`. */
  ghost predicate NoFactorBelow(n: int, d: int) {
    forall k :: 2 <= k < d ==> n % k != 0
  }

  ghost predicate NonDecreasing(s: seq<int>) {
    forall i, j :: 0 <= i < j < |s| ==> s[i] <= s[j]
  }

  function Product(s: seq<int>): int {
    if s == [] then 1 else s[0] * Product(s[1..])
  }

  lemma MulBounds(k: int, x: int)
    requires k > 0
    ensures x >= 1 ==> k * x >= k
    ensures x <= -1 ==> k * x <= -k
  {
  }

  lemma MultipleMod(k: int, c: int)
    requires k > 0
    ensures (k * c) % k == 0
  {
    var q, r := (k * c) / k, (k * c) % k;
    assert k * (c - q) == r;
    MulBounds(k, c - q);
  }

  lemma DividesTransitive(k: int, m: int, n: int)
    requires k > 0 && m > 0 && m % k == 0 && n % m == 0
    ensures n % k == 0
  {
    var a, b := m / k, n / m;
    assert n == k * (a * b) by {
      assert m == k * a;
      assert n == m * b;
    }
    MultipleMod(k, a * b);
  }

  /** A divisor `d >= 2` of `n >= 2` leaves a smaller positive cofactor that divides `n`. */
  lemma Cofactor(n: int, d: int)
    requires 2 <= d && 2 <= n && n % d == 0
    ensures 1 <= n / d < n && n % (n / d) == 0 && d * (n / d) == n
  {
    var q := n / d;
    assert n == d * q;
    assert q >= 1;
    assert n % q == 0 by {
      assert n == q * d;
      MultipleMod(q, d);
    }
  }

  lemma CofactorSmaller(n: int, d: int)
    requires 2 <= d && 2 <= n && n % d == 0
    ensures n / d < n
  {
    Cofactor(n, d);
  }

  /** The least d' >= d dividing n, given that nothing below d does. */
  function SmallestFactorFrom(n: int, d: int): (p: int)
    requires 2 <= d <= n && NoFactorBelow(n, d)
    ensures d <= p <= n && n % p == 0 && NoFactorBelow(n, p)
    decreases n - d
  {
    if n % d == 0 then d else SmallestFactorFrom(n, d + 1)
  }

  function SmallestFactor(n: int): (p: int)
    requires n >= 2
    ensures 2 <= p <= n && n % p == 0 && NoFactorBelow(n, p)
    ensures IsPrime(p)
  {
    var p := SmallestFactorFrom(n, 2);
    forall k | 2 <= k < p
      ensures p % k != 0
    {
      if p % k == 0 {
        DividesTransitive(k, p, n);
      }
    }
    p
  }

  /** The prime factors of `n`, produced by always splitting off the smallest factor; none for n < 2. */
  function Factorization(n: int): seq<int>
    decreases n
  {
    if n < 2 then []
    else
      var p := SmallestFactor(n);
      CofactorSmaller(n, p);
      [p] + Factorization(n / p)
  }

  /** The smallest factor is the one a search from `d` finds, when `d` divides and nothing smaller does. */
  lemma SmallestFactorIs(n: int, d: int)
    requires 2 <= d && 2 <= n && n % d == 0 && NoFactorBelow(n, d)
    ensures SmallestFactor(n) == d
  {
    var p := SmallestFactor(n);
    assert n % p == 0 && n % d == 0;
  }

  /** A multiple of `n` has no factor below `d` only if `n` has none. */
  lemma NoFactorBelowDivisor(n: int, m: int, d: int)
    requires m > 0 && n % m == 0 && NoFactorBelow(n, d)
    ensures NoFactorBelow(m, d)
  {
    forall k | 2 <= k < d
      ensures m % k != 0
    {
      if m % k == 0 {
        DividesTransitive(k, m, n);
      }
    }
  }

  /** Every factor listed for `n` divides `n`. */
  lemma {:induction false} FactorsDivide(n: int)
    ensures forall i :: 0 <= i < |Factorization(n)| ==> Factorization(n)[i] >= 2 && n % Factorization(n)[i] == 0
  {
    if n >= 2 {
      var p := SmallestFactor(n);
      Cofactor(n, p);
      var m := n / p;
      var rest := Factorization(m);
      FactorsDivide(m);
      forall i | 0 <= i < |Factorization(n)|
        ensures Factorization(n)[i] >= 2 && n % Factorization(n)[i] == 0
      {
        if i > 0 {
          assert Factorization(n)[i] == rest[i - 1];
          FactorPositive(m, i - 1);
          DividesTransitive(rest[i - 1], m, n);
        }
      }
    }
  }

  lemma {:induction false} FactorPositive(n: int, i: int)
    requires 0 <= i < |Factorization(n)|
    ensures Factorization(n)[i] >= 2
  {
    if i > 0 {
      var p := SmallestFactor(n);
      Cofactor(n, p);
      FactorPositive(n / p, i - 1);
    }
  }

  /** Multiplying the factors of n >= 1 gives back n; there are none for n <= 1. */
  lemma {:induction false} FactorizationProduct(n: int)
    ensures n <= 1 <==> Factorization(n) == []
    ensures n >= 1 ==> Product(Factorization(n)) == n
  {
    if n >= 2 {
      var p := SmallestFactor(n);
      Cofactor(n, p);
      FactorizationProduct(n / p);
    }
  }

  /** Every listed factor is prime. */
  lemma {:induction false} FactorizationPrime(n: int)
    ensures forall i :: 0 <= i < |Factorization(n)| ==> IsPrime(Factorization(n)[i])
  {
    if n >= 2 {
      var p := SmallestFactor(n);
      Cofactor(n, p);
      FactorizationPrime(n / p);
      assert Factorization(n) == [p] + Factorization(n / p);
    }
  }

  /** The factors come out in non-decreasing order, each at least as large as n's smallest factor. */
  lemma {:induction false} FactorizationSorted(n: int)
    ensures NonDecreasing(Factorization(n))
    ensures n >= 2 ==> forall i :: 0 <= i < |Factorization(n)| ==> Factorization(n)[i] >= SmallestFactor(n)
  {
    if n >= 2 {
      var p := SmallestFactor(n);
      Cofactor(n, p);
      var m := n / p;
      var rest := Factorization(m);
      var all := Factorization(n);
      assert all == [p] + rest;
      FactorizationSorted(m);
      FactorsDivide(m);
      forall i | 0 <= i < |rest|
        ensures rest[i] >= p
      {
        FactorPositive(m, i);
        DividesTransitive(rest[i], m, n);
        assert n % rest[i] == 0;
        assert NoFactorBelow(n, p);
      }
      forall i | 0 <= i < |all|
        ensures all[i] >= p
      {
        if i > 0 { assert all[i] == rest[i - 1]; }
      }
    }
  }

  /** One dividing step of trial division: `d` is split off as the first factor and the cofactor has no smaller one. */
  lemma DivideStep(n: int, d: int)
    requires 2 <= d && 2 <= n && n % d == 0 && NoFactorBelow(n, d)
    ensures 1 <= n / d < n
    ensures Factorization(n) == [d] + Factorization(n / d)
    ensures NoFactorBelow(n / d, d)
  {
    SmallestFactorIs(n, d);
    Cofactor(n, d);
    NoFactorBelowDivisor(n, n / d, d);
  }

  /** One non-dividing step of trial division: the next candidate still does not pass `n`. */
  lemma AdvanceStep(n: int, d: int)
    requires 2 <= d <= n && n % d != 0 && NoFactorBelow(n, d)
    ensures d < n && NoFactorBelow(n, d + 1)
  {
    assert n % n == 0;
  }

  /** What the decomposition promises about the factors of `n`, gathered from the lemmas above. */
  lemma FactorizationFacts(n: int)
    ensures n <= 1 <==> Factorization(n) == []
    ensures n >= 1 ==> Product(Factorization(n)) == n
    ensures forall i :: 0 <= i < |Factorization(n)| ==> IsPrime(Factorization(n)[i])
    ensures NonDecreasing(Factorization(n))
  {
    FactorizationProduct(n);
    FactorizationPrime(n);
    FactorizationSorted(n);
  }

  /** The client's request of 1200 decomposes into 2, 2, 2, 2, 3, 5, 5. */
  lemma ClientExample()
    ensures Factorization(1200) == [2, 2, 2, 2, 3, 5, 5]
  {
    DivideStep(1200, 2);
    DivideStep(600, 2);
    DivideStep(300, 2);
    DivideStep(150, 2);
    AdvanceStep(75, 2);
    DivideStep(75, 3);
    AdvanceStep(25, 3);
    AdvanceStep(25, 4);
    DivideStep(25, 5);
    DivideStep(5, 5);
  }
}
