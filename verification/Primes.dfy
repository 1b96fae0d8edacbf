/** Prime moduli: Euclid's lemma and Fermat's little theorem. */
module Primes {

  ghost function Power(a: int, e: nat): int {
    if e == 0 then 1 else a * Power(a, e - 1)
  }

  lemma {:induction false} PowerAdd(a: int, e: nat, f: nat)
    ensures Power(a, e + f) == Power(a, e) * Power(a, f)
  {
    if e > 0 {
      PowerAdd(a, e - 1, f);
      assert a * (Power(a, e - 1) * Power(a, f)) == a * Power(a, e - 1) * Power(a, f);
    }
  }

  /** `d` divides `n`. */
  ghost predicate Divides(d: int, n: int) {
    exists k :: n == Times(d, k)
  }

  ghost function Times(d: int, k: int): int {
    d * k
  }

  ghost predicate Prime(p: nat) {
    p > 1 && forall d :: 1 < d < p ==> !Divides(d, p)
  }

  lemma DividesTimes(d: int, n: int, k: int)
    requires n == d * k
    ensures Divides(d, n)
  {
    assert n == Times(d, k);
  }

  lemma DividesSum(d: int, m: int, n: int)
    requires Divides(d, m) && Divides(d, n)
    ensures Divides(d, m + n) && Divides(d, m - n)
  {
    var j :| m == Times(d, j);
    var k :| n == Times(d, k);
    assert d * j + d * k == d * (j + k) && d * j - d * k == d * (j - k);
    DividesTimes(d, m + n, j + k);
    DividesTimes(d, m - n, j - k);
  }

  lemma DividesProduct(d: int, m: int, n: int)
    requires Divides(d, m)
    ensures Divides(d, m * n)
  {
    var k :| m == Times(d, k);
    assert (d * k) * n == d * (k * n);
    DividesTimes(d, m * n, k * n);
  }

  lemma SmallNotDivided(p: int, n: int)
    requires 0 < n < p
    ensures !Divides(p, n)
  {
    forall k ensures Times(p, k) != n {
      if k >= 1 {
        assert p * k >= p * 1;
      } else {
        assert p * k <= p * 0;
      }
    }
  }

  lemma RemainderTimes(p: int, x: int, y: int, q: int, r: int)
    requires p == x * q + r
    ensures r * y == p * y - x * y * q
  {
    assert (x * q + r) * y == (x * q) * y + r * y;
    assert (x * q) * y == x * (q * y) == x * (y * q) == (x * y) * q;
  }

  /** No number below the prime makes a multiple of it out of one that is not: the remainder of the
      prime by `x` would be a smaller such number. */
  lemma {:induction false} NoSmallCofactor(p: nat, x: nat, y: int)
    requires Prime(p) && 0 < x < p && !Divides(p, y)
    ensures !Divides(p, x * y)
    decreases x
  {
    if x > 1 && Divides(p, x * y) {
      var q, r := p / x, p % x;
      if r == 0 {
        assert p == x * q;
        DividesTimes(x, p, q);
        assert false;
      } else {
        DividesTimes(p, p * y, y);
        DividesProduct(p, x * y, q);
        DividesSum(p, p * y, x * y * q);
        RemainderTimes(p, x, y, q, r);
        NoSmallCofactor(p, r, y);
        assert false;
      }
    }
  }

  /** Euclid's lemma. */
  lemma Euclid(p: nat, x: int, y: int)
    requires Prime(p) && Divides(p, x * y)
    ensures Divides(p, x) || Divides(p, y)
  {
    if !Divides(p, y) {
      var q, r := x / p, x % p;
      assert x == p * q + r;
      if r == 0 {
        DividesTimes(p, x, q);
      } else {
        DividesTimes(p, p * (q * y), q * y);
        DividesSum(p, x * y, p * (q * y));
        RemainderTimes(x, p, y, q, r);
        assert p * y * q == p * (q * y);
        NoSmallCofactor(p, r, y);
        assert false;
      }
    }
  }

  // ----- binomial coefficients

  ghost function Choose(n: nat, k: nat): nat {
    if k == 0 then 1 else if n == 0 then 0 else Choose(n - 1, k - 1) + Choose(n - 1, k)
  }

  lemma {:induction false} ChooseAbove(n: nat, k: nat)
    requires k > n
    ensures Choose(n, k) == 0
  {
    if n > 0 {
      ChooseAbove(n - 1, k - 1);
      ChooseAbove(n - 1, k);
    }
  }

  lemma {:induction false} ChooseAll(n: nat)
    ensures Choose(n, n) == 1
  {
    if n > 0 {
      ChooseAll(n - 1);
      ChooseAbove(n - 1, n);
    }
  }

  lemma {:induction false} Absorption(n: nat, k: nat)
    ensures (k + 1) * Choose(n + 1, k + 1) == (n + 1) * Choose(n, k)
    decreases n
  {
    var c, next := Choose(n, k), Choose(n, k + 1);
    if n == 0 {
      assert next == 0;
      ChooseAtZero(k);
    } else {
      Absorption(n - 1, k);
      var left := if k == 0 then 0 else Choose(n - 1, k - 1);
      if k > 0 {
        Absorption(n - 1, k - 1);
      }
      AbsorptionStep(n, k, c, left, Choose(n - 1, k), next);
    }
  }

  lemma {:induction false} ChooseAtZero(k: nat)
    ensures (k + 1) * Choose(0, k) == Choose(0, k)
  {
  }

  lemma AbsorptionStep(n: int, k: int, c: int, left: int, below: int, next: int)
    requires c == left + below && k * c == n * left && (k + 1) * next == n * below
    ensures (k + 1) * (c + next) == (n + 1) * c
  {
    assert (k + 1) * (c + next) == k * c + c + (k + 1) * next;
    assert (n + 1) * (left + below) == n * left + n * below + (left + below);
  }

  /** A prime divides its inner binomial coefficients. */
  lemma {:induction false} PrimeDividesChoose(p: nat, k: nat)
    requires Prime(p) && 0 < k < p
    ensures Divides(p, Choose(p, k))
  {
    Absorption(p - 1, k - 1);
    DividesTimes(p, k * Choose(p, k), Choose(p - 1, k - 1));
    Euclid(p, k, Choose(p, k));
    SmallNotDivided(p, k);
  }

  /** The first `k` terms of the binomial expansion of `(1 + a)^n`. */
  ghost function Terms(n: nat, a: int, k: nat): int {
    if k == 0 then 0 else Terms(n, a, k - 1) + Choose(n, k - 1) * Power(a, k - 1)
  }

  lemma TermAlgebra(a: int, c: int, d: int, q: int, t: int)
    ensures (c + d) * (a * q) == d * (a * q) + a * (c * q) && a * (t + c * q) == a * t + a * (c * q)
  {
    assert c * (a * q) == a * (c * q);
  }

  lemma {:induction false} TermsStep(n: nat, a: int, k: nat)
    ensures Terms(n + 1, a, k + 1) == Terms(n, a, k + 1) + a * Terms(n, a, k)
  {
    if k == 0 {
      assert Terms(n + 1, a, 1) == Terms(n + 1, a, 0) + Choose(n + 1, 0) * Power(a, 0) == 1;
      assert Terms(n, a, 1) == Terms(n, a, 0) + Choose(n, 0) * Power(a, 0) == 1;
    } else {
      TermsStep(n, a, k - 1);
      var c, d, q := Choose(n, k - 1), Choose(n, k), Power(a, k - 1);
      assert Choose(n + 1, k) == c + d && Power(a, k) == a * q;
      TermAlgebra(a, c, d, q, Terms(n, a, k - 1));
    }
  }

  lemma {:induction false} Binomial(n: nat, a: int)
    ensures Power(1 + a, n) == Terms(n, a, n + 1)
  {
    if n == 0 {
      assert Terms(0, a, 1) == Terms(0, a, 0) + Choose(0, 0) * Power(a, 0) == 1;
    } else {
      Binomial(n - 1, a);
      TermsStep(n - 1, a, n);
      ChooseAbove(n - 1, n);
      var t := Terms(n - 1, a, n);
      assert Terms(n - 1, a, n + 1) == t + Choose(n - 1, n) * Power(a, n) == t;
      assert (1 + a) * t == t + a * t;
    }
  }

  /** All inner terms vanish modulo a prime. */
  lemma {:induction false} InnerTerms(p: nat, a: int, k: nat)
    requires Prime(p) && 1 <= k <= p
    ensures Divides(p, Terms(p, a, k) - 1)
  {
    if k == 1 {
      assert Terms(p, a, 1) == Terms(p, a, 0) + Choose(p, 0) * Power(a, 0) == 1;
      DividesTimes(p, 0, 0);
    } else {
      InnerTerms(p, a, k - 1);
      PrimeDividesChoose(p, k - 1);
      DividesProduct(p, Choose(p, k - 1), Power(a, k - 1));
      DividesSum(p, Terms(p, a, k - 1) - 1, Choose(p, k - 1) * Power(a, k - 1));
    }
  }

  /** `a^p` is `a` modulo the prime `p`. */
  lemma {:induction false} FermatPower(p: nat, a: nat)
    requires Prime(p)
    ensures Divides(p, Power(a, p) - a)
  {
    if a == 0 {
      assert Power(0, p) == 0 * Power(0, p - 1) == 0;
      DividesTimes(p, 0, 0);
    } else {
      var b := a - 1;
      FermatPower(p, b);
      Binomial(p, b);
      InnerTerms(p, b, p);
      ChooseAll(p);
      assert Terms(p, b, p + 1) == Terms(p, b, p) + Choose(p, p) * Power(b, p) == Terms(p, b, p) + Power(b, p);
      DividesSum(p, Terms(p, b, p) - 1, Power(b, p) - b);
    }
  }

  /** Fermat's little theorem: what the prime does not divide has an inverse power. */
  lemma Fermat(p: nat, a: nat)
    requires Prime(p) && !Divides(p, a)
    ensures Divides(p, a * Power(a, p - 2) - 1)
  {
    FermatPower(p, a);
    var q := Power(a, p - 2);
    assert Power(a, p) == a * Power(a, p - 1) && Power(a, p - 1) == a * q;
    assert a * (a * q - 1) == a * (a * q) - a;
    Euclid(p, a, a * q - 1);
  }
}
