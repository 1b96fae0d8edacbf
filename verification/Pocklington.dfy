/** Pocklington's criterion: a number is prime when enough primes have an element of their order modulo it. */
module Pocklington {
  import opened Primes
  import opened Residues

  lemma {:induction false} PowerTimes(a: int, e: nat, f: nat)
    ensures Power(a, e * f) == Power(Power(a, e), f)
  {
    if f > 0 {
      PowerTimes(a, e, f - 1);
      assert e * f == e + e * (f - 1);
      PowerAdd(a, e, e * (f - 1));
    }
  }

  lemma DividesTrans(d: int, m: int, n: int)
    requires Divides(d, m) && Divides(m, n)
    ensures Divides(d, n)
  {
    var k :| n == Times(m, k);
    DividesProduct(d, m, k);
  }

  lemma {:induction false} PowersOfOne(n: nat, x: int, f: nat)
    requires Divides(n, x - 1)
    ensures Divides(n, Power(x, f) - 1)
  {
    assert Shown(0);
    if f == 0 {
      DividesTimes(n, 0, 0);
    } else {
      PowersOfOne(n, x, f - 1);
      AgreeMul(n, x, Power(x, f - 1), 1, 1);
    }
  }

  lemma UnitDivides(p: int, x: int)
    requires p > 1 && Divides(p, x)
    ensures !Divides(p, x - 1) && !Divides(p, x + 1)
  {
    SmallNotDivided(p, 1);
    if Divides(p, x - 1) {
      DividesSum(p, x, x - 1);
    }
    if Divides(p, x + 1) {
      DividesSum(p, x + 1, x);
    }
  }

  /** The least divisor above 1 is prime, and at most the square root of a number that is not. */
  lemma LeastDivisor(n: nat) returns (p: nat)
    requires n > 1
    ensures Prime(p) && Divides(p, n) && (Prime(n) || p * p <= n)
  {
    p := 2;
    while !Divides(p, n)
      invariant 1 < p <= n && forall d :: 1 < d < p ==> !Divides(d, n)
      decreases n - p
    {
      if p == n {
        DividesTimes(n, n, 1);
      }
      p := p + 1;
    }
    forall d | 1 < d < p ensures !Divides(d, p) {
      if Divides(d, p) {
        DividesTrans(d, p, n);
      }
    }
    var k :| n == Times(p, k);
    if p < n {
      Cofactor(p, k, n);
      DividesTimes(k, n, p);
      assert p * p <= p * k;
    }
  }

  lemma Cofactor(p: nat, k: int, n: nat)
    requires 0 < p < n == p * k
    ensures 1 < k <= n
  {
    MultiplesOrdered(p, k, 1);
    if k > 1 {
      MultiplesOrdered(k, 1, p);
    }
  }

  lemma MultiplesOrdered(p: nat, j: int, k: int)
    ensures j <= k ==> p * j <= p * k
  {
  }

  lemma SquaresOrdered(f: nat, p: nat)
    requires f <= p
    ensures f * f <= p * p
  {
    assert f * f <= p * f <= p * p;
  }

  /** Modulo `n`, the `q`-th power of `b` is 1, and `b - 1` has the inverse `c`. */
  ghost predicate OfOrder(n: nat, q: nat, b: nat, c: nat) {
    Divides(n, Power(b, q) - 1) && Divides(n, c * (b - 1) - 1)
  }

  /** `q` is prime and some element has that order modulo `n`. */
  ghost predicate Witnessed(n: nat, q: nat) {
    forall z {:trigger Shown(z)} :: Shown(z) ==> Prime(q) && exists b, c :: 0 <= b && 0 <= c && OfOrder(n, q, b, c)
  }

  /** `v` inverts `p - 1` modulo the prime `q`. */
  lemma InverseExponent(q: nat, x: nat) returns (v: nat, u: nat)
    requires Prime(q) && x > 0 && !Divides(q, x)
    ensures x * v == 1 + q * u
  {
    Fermat(q, x);
    PowerPositive(x, q - 2);
    v := Power(x, q - 2);
    var k :| x * v - 1 == Times(q, k);
    assert x * v >= 1 * 1;
    MultiplesOrdered(q, k, -1);
    u := k;
  }

  lemma {:induction false} PowerPositive(x: nat, e: nat)
    requires x > 0
    ensures Power(x, e) > 0
  {
    if e > 0 {
      PowerPositive(x, e - 1);
      assert x * Power(x, e - 1) >= 1 * 1;
    }
  }

  /** If the `q`-th power and the `x`-th power are 1, so is the element, unless `q` divides `x`. */
  lemma {:induction false} CoprimeOrders(p: nat, b: nat, q: nat, x: nat)
    requires Divides(p, Power(b, q) - 1) && Divides(p, Power(b, x) - 1)
    requires Prime(q) && x > 0 && !Divides(q, x)
    ensures Divides(p, b - 1)
  {
    var v, u := InverseExponent(q, x);
    PowerTimes(b, x, v);
    PowersOfOne(p, Power(b, x), v);
    PowerTimes(b, q, u);
    PowersOfOne(p, Power(b, q), u);
    assert Power(b, 1 + q * u) == b * Power(b, q * u);
    FactorIsOne(p, b, Power(b, q * u));
  }

  lemma FactorIsOne(p: int, b: int, w: int)
    requires Divides(p, w - 1) && Divides(p, b * w - 1)
    ensures Divides(p, b - 1)
  {
    DividesProduct(p, w - 1, b);
    assert (w - 1) * b == b * w - b;
    DividesSum(p, b * w - 1, (w - 1) * b);
  }

  /** Every prime divisor of `n` is one above a multiple of `q`. */
  lemma WitnessDivides(n: nat, q: nat, p: nat)
    requires Witnessed(n, q) && Prime(p) && Divides(p, n)
    ensures Prime(q) && Divides(q, p - 1)
  {
    assert Shown(0);
    var b, c :| 0 <= b && 0 <= c && OfOrder(n, q, b, c);
    DividesTrans(p, n, Power(b, q) - 1);
    DividesTrans(p, n, c * (b - 1) - 1);
    if Divides(p, b - 1) {
      DividesProduct(p, b - 1, c);
      assert (b - 1) * c == c * (b - 1);
      UnitDivides(p, c * (b - 1));
    }
    if Divides(p, b) {
      DividesProduct(p, b, Power(b, q - 1));
      UnitDivides(p, Power(b, q));
      assert false;
    }
    Fermat(p, b);
    assert Power(b, p - 1) == b * Power(b, p - 2);
    if !Divides(q, p - 1) {
      CoprimeOrders(p, b, q, p - 1);
    }
  }

  ghost function ProductOf(qs: seq<nat>): nat {
    if qs == [] then 1 else ProductOf(qs[..|qs| - 1]) * qs[|qs| - 1]
  }

  ghost predicate Distinct(qs: seq<nat>) {
    forall i, j :: 0 <= i < j < |qs| ==> qs[i] != qs[j]
  }

  lemma PrimesApart(p: nat, q: nat)
    requires Prime(p) && Prime(q) && p != q
    ensures !Divides(p, q)
  {
    if p > q {
      SmallNotDivided(p, q);
    }
  }

  /** A prime does not divide a product of other primes. */
  lemma {:induction false} ForeignPrime(qs: seq<nat>, q: nat)
    requires Prime(q) && forall i :: 0 <= i < |qs| ==> Prime(qs[i]) && qs[i] != q
    ensures !Divides(q, ProductOf(qs))
  {
    if qs == [] {
      SmallNotDivided(q, 1);
    } else {
      var last := qs[|qs| - 1];
      ForeignPrime(qs[..|qs| - 1], q);
      PrimesApart(q, last);
      if Divides(q, ProductOf(qs)) {
        Euclid(q, ProductOf(qs[..|qs| - 1]), last);
      }
    }
  }

  /** What different primes divide, their product divides. */
  lemma {:induction false} ProductDivides(qs: seq<nat>, x: int)
    requires Distinct(qs) && forall i :: 0 <= i < |qs| ==> Prime(qs[i]) && Divides(qs[i], x)
    ensures Divides(ProductOf(qs), x)
  {
    if qs == [] {
      DividesTimes(1, x, x);
    } else {
      var front, last := qs[..|qs| - 1], qs[|qs| - 1];
      ProductDivides(front, x);
      ForeignPrime(front, last);
      OneMorePrime(ProductOf(front), last, x);
    }
  }

  lemma OneMorePrime(f: nat, q: nat, x: int)
    requires Divides(f, x) && Prime(q) && Divides(q, x) && !Divides(q, f)
    ensures Divides(f * q, x)
  {
    var k :| x == Times(f, k);
    Euclid(q, f, k);
    var j :| k == Times(q, j);
    assert f * (q * j) == f * q * j;
    DividesTimes(f * q, x, j);
  }

  /** Pocklington's criterion. */
  lemma {:induction false} Criterion(n: nat, qs: seq<nat>)
    requires n > 1 && Distinct(qs) && forall i :: 0 <= i < |qs| ==> Witnessed(n, qs[i])
    requires ProductOf(qs) * ProductOf(qs) > n
    ensures Prime(n)
  {
    var p := LeastDivisor(n);
    forall i | 0 <= i < |qs| ensures Prime(qs[i]) && Divides(qs[i], p - 1) {
      WitnessDivides(n, qs[i], p);
    }
    ProductDivides(qs, p - 1);
    var f := ProductOf(qs);
    if f >= p {
      SmallNotDivided(f, p - 1);
    }
    SquaresOrdered(f, p);
  }

  lemma ProductNext(qs: seq<nat>, q: nat)
    ensures ProductOf(qs + [q]) == ProductOf(qs) * q
  {
    assert (qs + [q])[..|qs|] == qs;
  }

  lemma OneFactor(n: nat, q: nat)
    requires n > 1 && Witnessed(n, q) && q * q > n
    ensures Prime(n)
  {
    ProductNext([], q);
    assert [] + [q] == [q];
    Criterion(n, [q]);
  }

  lemma FiveFactors(n: nat, a: nat, b: nat, c: nat, d: nat, e: nat)
    requires n > 1 && a < b < c < d < e && a * b * c * d * e * (a * b * c * d * e) > n
    requires Witnessed(n, a) && Witnessed(n, b) && Witnessed(n, c) && Witnessed(n, d) && Witnessed(n, e)
    ensures Prime(n)
  {
    ProductOfFive(a, b, c, d, e);
    Criterion(n, [a, b, c, d, e]);
  }

  lemma ProductOfFive(a: nat, b: nat, c: nat, d: nat, e: nat)
    ensures ProductOf([a, b, c, d, e]) == a * b * c * d * e
  {
    ProductNext([], a);
    ProductNext([a], b);
    ProductNext([a, b], c);
    ProductNext([a, b, c], d);
    ProductNext([a, b, c, d], e);
    assert [] + [a] == [a] && [a] + [b] == [a, b] && [a, b] + [c] == [a, b, c];
    assert [a, b, c] + [d] == [a, b, c, d] && [a, b, c, d] + [e] == [a, b, c, d, e];
  }

  lemma DividesRemainder(p: nat, n: nat)
    requires p > 0 && Divides(p, n)
    ensures n % p == 0
  {
    var k :| n == Times(p, k);
    var r := n % p;
    assert p * (k - n / p) == p * k - p * (n / p);
    DividesTimes(p, r, k - n / p);
    if r > 0 {
      SmallNotDivided(p, r);
    }
  }

  /** Trial division up to the square root. */
  lemma SmallPrime(n: nat, r: nat)
    requires 1 < n < r * r && forall d :: 2 <= d < r ==> n % d != 0
    ensures Prime(n)
  {
    var p := LeastDivisor(n);
    DividesRemainder(p, n);
    if r <= p {
      SquaresOrdered(r, p);
    }
  }

  // ----- powers modulo `n`, two bits of the exponent at a time

  /** Modulo `n`, the `e`-th power of `b` is `x`. */
  ghost predicate Leaves(n: nat, b: nat, e: nat, x: nat) {
    forall z {:trigger Shown(z)} :: Shown(z) ==> Agree(n, Power(b, e), x)
  }

  lemma LeavesSum(n: nat, b: nat, e: nat, x: nat, f: nat, y: nat)
    requires Leaves(n, b, e, x) && Leaves(n, b, f, y)
    ensures Leaves(n, b, e + f, x * y)
  {
    assert Shown(0);
    PowerAdd(b, e, f);
    AgreeMul(n, Power(b, e), Power(b, f), x, y);
  }

  lemma LeavesRemainder(n: nat, b: nat, e: nat, x: nat, c: nat)
    requires n > 0 && Leaves(n, b, e, x) && x % n == c
    ensures Leaves(n, b, e, c)
  {
    assert Shown(0);
    DividesTimes(n, x - c, x / n);
    DividesSum(n, Power(b, e) - x, x - c);
  }

  lemma LeavesZero(n: nat, b: nat)
    ensures Leaves(n, b, 0, 1)
  {
    AgreeSelf(n, 1);
  }

  lemma Fourth(n: nat, b: nat, e: nat, x: nat)
    requires Leaves(n, b, e, x)
    ensures Leaves(n, b, 4 * e, x * x * (x * x))
  {
    LeavesSum(n, b, e, x, e, x);
    LeavesSum(n, b, e + e, x * x, e + e, x * x);
  }

  /** The first powers, up to the cube. */
  lemma FirstPowers(n: nat, b: nat, b2: nat, b3: nat)
    requires n > 0 && b * b % n == b2 && b2 * b % n == b3
    ensures Leaves(n, b, 0, 1) && Leaves(n, b, 1, b) && Leaves(n, b, 2, b2) && Leaves(n, b, 3, b3)
  {
    assert Shown(0);
    assert Power(b, 1) == b * Power(b, 0);
    DividesTimes(n, 0, 0);
    LeavesSum(n, b, 1, b, 1, b);
    LeavesRemainder(n, b, 2, b * b, b2);
    LeavesSum(n, b, 2, b2, 1, b);
    LeavesRemainder(n, b, 3, b2 * b, b3);
  }

  /** Two more bits of the exponent: `d`, of which `t` is the power. */
  lemma Next(n: nat, b: nat, e: nat, x: nat, d: nat, t: nat, c: nat) returns (f: nat)
    requires n > 0 && Leaves(n, b, e, x) && Leaves(n, b, d, t) && x * x * (x * x) * t % n == c
    ensures f == 4 * e + d && Leaves(n, b, f, c)
  {
    f := 4 * e + d;
    Fourth(n, b, e, x);
    LeavesSum(n, b, 4 * e, x * x * (x * x), d, t);
    LeavesRemainder(n, b, f, x * x * (x * x) * t, c);
  }

  /** The end of the computation. */
  lemma Witness(n: nat, q: nat, b: nat, c: nat)
    requires Prime(q) && n > 1 && b > 0 && Leaves(n, b, q, 1) && c * (b - 1) % n == 1
    ensures Witnessed(n, q)
  {
    assert Shown(0);
    var z := c * (b - 1);
    DividesTimes(n, z - 1, z / n);
    assert OfOrder(n, q, b, c);
  }
}
